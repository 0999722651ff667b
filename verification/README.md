# Slug assignment and booking status of the Liok Hotels site

The Liok Hotels site is a Django application for a hotel chain. Staff
manage properties, blog posts and guest booking inquiries. Almost all of
it is framework-driven create/read/update/delete code. This project models
the part with logic of its own: what the records do when they are saved.

- **`Blog.save`** fills an empty slug. It computes `base = slugify(title)`,
  tries `base`, then `base-1`, `base-2`, ..., and keeps the first candidate
  that no stored post uses. `Slugs.UniqueSlug` models the loop. Its
  invariants prove three things: the result is free, every earlier
  candidate is taken, and the loop stops after at most `|existing|`
  iterations. Termination rests on `Slugs.TakenBound`: the candidates are
  pairwise distinct (`Slugs.CandidateInjective`, which follows from the
  decimal rendering round trip), so `n` taken candidates need `n` stored
  slugs. `Slugs.FirstFreeFrom` is an independent recursive definition of
  the same search. The loop is proved to return exactly its answer.
- **`Property.save`** fills an empty slug with `slugify(name)` and does no
  collision check. Uniqueness comes only from the `unique=True` column,
  which is modelled as `Models.InsertSlug`, an insert that fails with an
  integrity error on a duplicate.
- **`BookingInquiry.status`** is a text column with three choices,
  `pending`, `confirmed` and `cancelled`, and the default `pending`. The
  column itself accepts any string of up to 20 characters. The choices
  are enforced only when a form validates the value. So the model keeps
  the column as a string and proves that its writers keep it within the
  choices. Those writers are creation, which writes the default, and a
  validated status edit.

`slugify` belongs to the framework and is kept uninterpreted. Every
operation that uses it takes it as a parameter of type
`string -> string`, so every result holds for any slug function. The
stored slugs of a table are a finite `set<string>`.

One behaviour of the code as written is worth noting. Suppose a title
slugifies to the empty string and no stored post has the empty slug. Then
`Blog.save` stores the post with an empty slug. Because that slug is
empty, the next save of the same post runs the loop again. It now finds
its own empty slug taken and moves the post to a non-empty slug `-k`.
That slug is `-1` unless another post already has `-1`. The lemma
`Models.ResaveBlogWithEmptyBaseMoves` proves this for every such post and
store. The stability
lemma `Models.ResaveBlogKeepsSlug` is therefore stated for the case where
the first save produced a non-empty slug. The code gives no sign of what
it should do instead, so the model keeps this behaviour.

Files: `wrappers.dfy` (Option and Result), `slugs.dfy` (candidates, the
loop, the reference search), `models.dfy` (the records and their `save`).

## Model

| member | source | states |
|---|---|---|
| Slugs.NatToString | liok_hotels_project/liok_hotels_app/models.py:67 | the counter in `f"{base_slug}-{counter}"` is rendered as a non-empty string of decimal digits with no leading zero unless the number is 0 |
| Slugs.NatToStringRoundTrip | liok_hotels_project/liok_hotels_app/models.py:67 | reading the decimal rendering of a counter back gives the counter |
| Slugs.NatToStringInjective | liok_hotels_project/liok_hotels_app/models.py:67 | distinct counters are rendered as distinct strings |
| Slugs.Candidate | liok_hotels_project/liok_hotels_app/models.py:64-67 | candidate 0 is the base slug; candidate k >= 1 is the base, a hyphen, and the decimal rendering of k, so it is strictly longer than the base |
| Slugs.CandidateInjective | liok_hotels_project/liok_hotels_app/models.py:64-67 | different counter values never produce the same candidate slug |
| Slugs.TakenBound | liok_hotels_project/liok_hotels_app/models.py:65-68 | if the first n candidates are all taken, at least n slugs are stored, so the counter is bounded by the table size |
| Slugs.LeastFreeUnique | liok_hotels_project/liok_hotels_app/models.py:65-68 | at most one index is free while every earlier candidate is taken |
| Slugs.FirstFreeFrom | liok_hotels_project/liok_hotels_app/models.py:65-68 | when every candidate before k is taken, the search from k ends at a free candidate at or after k, within the table size, and every candidate before it is taken |
| Slugs.LeastFreeIndex | liok_hotels_project/liok_hotels_app/models.py:63-69 | the index of the first free candidate, at most the number of stored slugs |
| Slugs.UniqueSlug | liok_hotels_project/liok_hotels_app/models.py:63-69 | the loop ends with a slug that no stored post uses, of the form base or base-(counter-1), with every earlier candidate taken; it is the base exactly when the base is free, and it agrees with the reference search |
| Models.InsertSlug | liok_hotels_project/liok_hotels_app/models.py:50 | for the unique slug column of Blog (line 50) and, identically, of Property (line 7): a row is written exactly when its slug is not already in the unique column, which then gains that slug and nothing else |
| Models.SaveBlog | liok_hotels_project/liok_hotels_app/models.py:61-70 | a post with a slug keeps it and is otherwise unchanged; a post with an empty slug gets a slug no stored post uses, which is slugify(title) exactly when that is free and is non-empty whenever slugify(title) is |
| Models.BlogSlugIsLeastSuffix | liok_hotels_project/liok_hotels_app/models.py:65-68 | when slugify(title) is taken, the assigned slug is base-k with k >= 1, and the base and every base-j with 1 <= j < k are taken |
| Models.SaveBlogByLoop | liok_hotels_project/liok_hotels_app/models.py:61-70 | running the loop on a post assigns exactly the slug the reference definition of `Blog.save` assigns |
| Models.CreateBlogNeverCollides | liok_hotels_project/liok_hotels_app/models.py:50-69 | a post created with an empty slug never violates the unique slug column |
| Models.ResaveBlogKeepsSlug | liok_hotels_project/liok_hotels_app/models.py:62-69 | after the first save gives a non-empty slug and it is stored, a second save leaves the post unchanged |
| Models.ResaveBlogWithEmptyBaseMoves | liok_hotels_project/liok_hotels_app/models.py:62-69 | for every post whose title slugifies to "" when no stored post has "", the first save gives the empty slug; once that is stored, a second save moves the post to a non-empty slug no stored post uses, which is "-1" exactly when "-1" is free |
| Models.ResaveBlogEmptyBaseExample | liok_hotels_project/liok_hotels_app/models.py:62-69 | the title "!!!" under a slug function that returns "" gets "" in an empty store, and "-1" on its second save |
| Models.SaveProperty | liok_hotels_project/liok_hotels_app/models.py:17-20 | only the slug can change; a non-empty slug is kept and an empty one becomes slugify(name), with no look at stored slugs |
| Models.SavePropertyIdempotent | liok_hotels_project/liok_hotels_app/models.py:17-19 | saving a property twice gives the same record as saving it once |
| Models.CreatePropertyFailsIff | liok_hotels_project/liok_hotels_app/models.py:7-19 | creating a property with an empty slug fails at the database exactly when slugify(name) is already a stored slug |
| Models.PropertyDuplicateRejected | liok_hotels_project/liok_hotels_app/models.py:7-19 | two slug-less properties with the same name: the first is stored and the second is rejected with an integrity error |
| Models.StatusValue | liok_hotels_project/liok_hotels_app/models.py:143-148 | each status is stored as a non-empty value that fits the 20-character status column |
| Models.StatusLabel | liok_hotels_project/liok_hotels_app/models.py:143-147 | each choice's label is exactly its stored value capitalised (first letter upper-case, the rest lower-case), as `str.capitalize` gives it |
| Models.ParseStatus | liok_hotels_project/liok_hotels_app/models.py:143-148 | a column value is accepted exactly when it is one of pending, confirmed, cancelled |
| Models.StatusRoundTrip | liok_hotels_project/liok_hotels_app/models.py:143-147 | every status reads back as itself from its stored value |
| Models.ParseStatusSound | liok_hotels_project/liok_hotels_app/models.py:143-147 | every accepted value is the stored value of the status it reads as |
| Models.StatusValueInjective | liok_hotels_project/liok_hotels_app/models.py:143-147 | distinct statuses are stored as distinct values |
| Models.NewInquiry | liok_hotels_project/liok_hotels_app/models.py:133-155 | a new inquiry stores the submitted fields as given and its status column holds "pending", which reads as the default choice |
| Models.UpdateStatus | liok_hotels_project/liok_hotels_app/models.py:143-148 | a status edit is accepted exactly when the new value is one of the three choices; it then writes that value and changes no other field |
| Models.ApplyStatusEdits | liok_hotels_project/liok_hotels_app/models.py:143-148 | a sequence of status edits changes no field but the status |
| Models.StatusEditsPreserveValidity | liok_hotels_project/liok_hotels_app/models.py:143-148 | status edits keep a status column that holds a choice holding a choice |
| Models.StatusInDomain | liok_hotels_project/liok_hotels_app/models.py:143-148 | every inquiry that is created and then edited any number of times has one of the three choices in its status column |

## Left out

- views.py: request handlers over the ORM, pagination, login and staff checks, flash messages and redirects. These are framework behaviour with no logic of their own beyond queries. The same goes for the dashboard's counts and its grouping by month and by status.
- forms.py, urls.py and context_processors.py: field lists, a routing table and one query. Neither form exposes the slug, so `save` is the only place a slug is set.
- RoomCategory, NearbyLocation, Testimonial, Category, GalleryImage and ContactMessage: field declarations with no behaviour beyond `__str__`.
- Cascade deletes, `auto_now_add` timestamps and the `ordering` options: ORM declarations, not code.
- Image fields and file uploads: file storage I/O.
- The internals of `slugify` (Unicode normalisation, lower-casing, hyphenation): framework code, passed in as an arbitrary function.
- Column widths other than the status column, including the slug column's width: enforced by the database backend, not by the code.
- Concurrency: two simultaneous `Blog.save` calls can both see a candidate as free. The model treats each save as running alone against a fixed set of stored slugs. In that race the unique column still rejects the second insert, as `Models.InsertSlug` states.
- Models.StatusInDomain: covers the writers in the code, which are creation with the default and an edit validated against the choices. A direct database or ORM write of another string would bypass the choices. No code here does that, and the model does not cover it.
- The admin interface that performs status edits: framework forms. `Models.UpdateStatus` models only the choice validation those forms apply.
