/**
 The records of the hotel site whose `save` carries logic of its own:
 Blog and Property fill in an empty slug, and a BookingInquiry carries a
 status column whose choices are three values. The slug columns of both tables
 are unique in the database, which this module models as an insert that
 fails on a duplicate.

 `slugify` is the framework's text-to-slug conversion. Its internals are not
 part of this model, so every operation that uses it takes it as a parameter.
 */
module Models {
  import opened Wrappers
  import Slugs

  // ---------------------------------------------------------------------
  // Unique slug column
  // ---------------------------------------------------------------------

  /** The error the database raises when a unique constraint is violated. */
  datatype DbError = IntegrityError

  /**
   Writes a new row whose slug column is `slug` into a table whose existing
   slugs are `column`. The column is unique, so a duplicate is rejected and
   the table is left as it was.
   */
  function InsertSlug(column: set<string>, slug: string): (r: Result<set<string>, DbError>)
    ensures r.Success? <==> slug !in column
    ensures r.Success? ==> slug in r.value && r.value - {slug} == column
  {
    if slug in column then Failure(IntegrityError) else Success(column + {slug})
  }

  // ---------------------------------------------------------------------
  // Blog
  // ---------------------------------------------------------------------

  /** A blog post. Its image and creation time play no part in `save`. */
  datatype Blog = Blog(title: string, slug: string, description: string)

  /**
   `Blog.save`: a post that already has a slug keeps it; a post with an
   empty slug gets the first candidate built from `slugify(title)` that no
   stored post uses. `stored` is the set of slugs of the stored posts.
   */
  function SaveBlog(b: Blog, stored: set<string>, slugify: string -> string): (r: Blog)
    ensures r.title == b.title && r.description == b.description
    ensures b.slug != "" ==> r == b
    ensures b.slug == "" ==> r.slug !in stored
    ensures b.slug == "" ==> (r.slug == slugify(b.title) <==> slugify(b.title) !in stored)
    ensures b.slug != "" || slugify(b.title) != "" ==> r.slug != ""
  {
    if b.slug != "" then b
    else
      var base := slugify(b.title);
      b.(slug := Slugs.Candidate(base, Slugs.LeastFreeIndex(base, stored)))
  }

  /**
   When the base slug is taken, the post gets `base-k` for some k >= 1, and
   the base and every `base-j` with 1 <= j < k are taken.
   */
  lemma BlogSlugIsLeastSuffix(b: Blog, stored: set<string>, slugify: string -> string)
    requires b.slug == "" && slugify(b.title) in stored
    ensures exists k: nat :: k >= 1 && SaveBlog(b, stored, slugify).slug == Slugs.Candidate(slugify(b.title), k)
              && Slugs.TakenBelow(slugify(b.title), stored, k)
  {
    var base := slugify(b.title);
    var k := Slugs.LeastFreeIndex(base, stored);
    assert k >= 1;
    assert SaveBlog(b, stored, slugify).slug == Slugs.Candidate(base, k);
  }

  /**
   The loop of `Blog.save` and the reference search agree: running the loop
   on the stored slugs assigns exactly the slug `SaveBlog` assigns.
   */
  method SaveBlogByLoop(b: Blog, stored: set<string>, slugify: string -> string) returns (r: Blog)
    ensures r == SaveBlog(b, stored, slugify)
  {
    r := b;
    if b.slug == "" {
      var slug, counter := Slugs.UniqueSlug(slugify(b.title), stored);
      r := b.(slug := slug);
    }
  }

  /** Creating a post with an empty slug never trips the unique constraint. */
  lemma CreateBlogNeverCollides(b: Blog, stored: set<string>, slugify: string -> string)
    requires b.slug == ""
    ensures InsertSlug(stored, SaveBlog(b, stored, slugify).slug).Success?
  {
  }

  /**
   Saving a post a second time, after its row (and so its slug) is stored,
   leaves it unchanged, provided the first save gave it a non-empty slug.
   */
  lemma ResaveBlogKeepsSlug(b: Blog, stored: set<string>, slugify: string -> string)
    requires SaveBlog(b, stored, slugify).slug != ""
    ensures var r := SaveBlog(b, stored, slugify);
            SaveBlog(r, stored + {r.slug}, slugify) == r
  {
  }

  /**
   A title that slugifies to the empty string gives the empty slug when no
   stored post has it. The stored row then has an empty slug, so the next
   save of the same post computes a slug again. It finds its own empty slug
   taken and moves the post to a non-empty slug of the form "-k": "-1"
   exactly when no stored post has "-1".
   */
  lemma ResaveBlogWithEmptyBaseMoves(b: Blog, stored: set<string>, slugify: string -> string)
    requires b.slug == "" && slugify(b.title) == "" && "" !in stored
    ensures SaveBlog(b, stored, slugify).slug == ""
    ensures var r2 := SaveBlog(SaveBlog(b, stored, slugify), stored + {""}, slugify);
            && r2.slug != ""
            && r2.slug !in stored + {""}
            && r2.title == b.title && r2.description == b.description
            && (r2.slug == "-1" <==> "-1" !in stored)
  {
    var r2 := SaveBlog(SaveBlog(b, stored, slugify), stored + {""}, slugify);
    var k := Slugs.LeastFreeIndex("", stored + {""});
    assert r2.slug == Slugs.Candidate("", k);
    assert Slugs.Candidate("", 1) == "-1" by {
      assert Slugs.NatToString(1) == "1";
    }
    if "-1" !in stored {
      Slugs.LeastFreeUnique("", stored + {""}, k, 1);
    } else {
      Slugs.CandidateInjective("", k, 1);
    }
  }

  /** The move for one concrete post: the title "!!!" and an empty store. */
  lemma ResaveBlogEmptyBaseExample()
    ensures var f := (t: string) => "";
            var r := SaveBlog(Blog("!!!", "", ""), {}, f);
            r.slug == "" && SaveBlog(r, {r.slug}, f).slug == "-1"
  {
    ResaveBlogWithEmptyBaseMoves(Blog("!!!", "", ""), {}, (t: string) => "");
  }

  // ---------------------------------------------------------------------
  // Property
  // ---------------------------------------------------------------------

  /** A hotel property. Contact, map and image fields play no part in `save`. */
  datatype Property = Property(
    name: string,
    slug: string,
    overview: string,
    address: string,
    amenities: string
  )

  /**
   `Property.save`: an empty slug becomes `slugify(name)`, without looking at
   the slugs already stored; a non-empty slug is kept.
   */
  function SaveProperty(p: Property, slugify: string -> string): (r: Property)
    ensures r.(slug := p.slug) == p
    ensures p.slug != "" ==> r.slug == p.slug
    ensures p.slug == "" ==> r.slug == slugify(p.name)
  {
    if p.slug != "" then p else p.(slug := slugify(p.name))
  }

  /** Saving a property twice is the same as saving it once. */
  lemma SavePropertyIdempotent(p: Property, slugify: string -> string)
    ensures SaveProperty(SaveProperty(p, slugify), slugify) == SaveProperty(p, slugify)
  {
  }

  /**
   Creating a property with an empty slug fails at the database exactly when
   another stored property already has `slugify(name)` as its slug.
   */
  lemma CreatePropertyFailsIff(p: Property, stored: set<string>, slugify: string -> string)
    requires p.slug == ""
    ensures InsertSlug(stored, SaveProperty(p, slugify).slug).Failure? <==> slugify(p.name) in stored
  {
  }

  /**
   Two properties with the same name and no slug: the first is stored, the
   second is rejected by the unique constraint, whatever `slugify` is.
   */
  lemma PropertyDuplicateRejected(p: Property, q: Property, slugify: string -> string)
    requires p.slug == "" && q.slug == "" && p.name == q.name
    ensures var first := InsertSlug({}, SaveProperty(p, slugify).slug);
            first.Success? && InsertSlug(first.value, SaveProperty(q, slugify).slug) == Failure(IntegrityError)
  {
  }

  // ---------------------------------------------------------------------
  // BookingInquiry
  // ---------------------------------------------------------------------

  /** The three status choices of a booking inquiry. */
  datatype BookingStatus = Pending | Confirmed | Cancelled

  /** Every inquiry starts out pending. */
  const DefaultStatus: BookingStatus := Pending

  /** The width of the status column. */
  const StatusMaxLength: nat := 20

  /** The value stored in the status column for a choice. */
  function StatusValue(s: BookingStatus): (v: string)
    ensures 0 < |v| <= StatusMaxLength
  {
    match s
    case Pending => "pending"
    case Confirmed => "confirmed"
    case Cancelled => "cancelled"
  }

  /** ASCII upper-casing of one character; other characters are unchanged. */
  function UpperAscii(c: char): char {
    if 'a' <= c <= 'z' then (c as int - 32) as char else c
  }

  /** ASCII lower-casing of one character; other characters are unchanged. */
  function LowerAscii(c: char): char {
    if 'A' <= c <= 'Z' then (c as int + 32) as char else c
  }

  /** Python's `str.capitalize` on ASCII text: first character upper-case, the rest lower-case. */
  function Capitalize(s: string): (r: string)
    ensures |r| == |s|
  {
    if |s| == 0 then "" else [UpperAscii(s[0])] + seq(|s| - 1, i requires 0 <= i < |s| - 1 => LowerAscii(s[i + 1]))
  }

  /**
   The human-readable label of a choice. It is the capitalised stored value,
   which is also what the dashboard shows for each stored status.
   */
  function StatusLabel(s: BookingStatus): (l: string)
    ensures l == Capitalize(StatusValue(s))
  {
    match s
    case Pending => "Pending"
    case Confirmed => "Confirmed"
    case Cancelled => "Cancelled"
  }

  /** Reads a status column value; anything outside the three choices is rejected. */
  function ParseStatus(v: string): (r: Option<BookingStatus>)
    ensures r.Some? <==> v in {"pending", "confirmed", "cancelled"}
  {
    if v == "pending" then Some(Pending)
    else if v == "confirmed" then Some(Confirmed)
    else if v == "cancelled" then Some(Cancelled)
    else None
  }

  /** Every status reads back as itself. */
  lemma StatusRoundTrip(s: BookingStatus)
    ensures ParseStatus(StatusValue(s)) == Some(s)
  {
  }

  /** Every accepted column value is the value of the status it reads as. */
  lemma ParseStatusSound(v: string)
    ensures ParseStatus(v).Some? ==> StatusValue(ParseStatus(v).value) == v
  {
  }

  /** Distinct statuses are stored as distinct values. */
  lemma StatusValueInjective(s: BookingStatus, t: BookingStatus)
    ensures StatusValue(s) == StatusValue(t) ==> s == t
  {
    StatusRoundTrip(s);
    StatusRoundTrip(t);
  }

  /** A calendar date, as submitted; no validation beyond its shape. */
  datatype Date = Date(year: int, month: int, day: int)

  /**
   A guest's booking inquiry for one property. The status is the text of its
   column: the database itself accepts any string there, and only the
   writers below keep it to the three choices.
   */
  datatype BookingInquiry = BookingInquiry(
    firstName: string,
    lastName: string,
    phone: string,
    email: Option<string>,
    roomCategory: Option<string>,
    propertyId: nat,
    status: string,
    checkIn: Date,
    checkOut: Date,
    guests: int,
    message: string
  )

  /** True iff the inquiry's status column holds one of the three choices. */
  predicate HasValidStatus(q: BookingInquiry) {
    ParseStatus(q.status).Some?
  }

  /**
   A newly created inquiry: the submitted fields are stored as given, and
   the status, which no form sets, takes its default.
   */
  function NewInquiry(
    firstName: string, lastName: string, phone: string, email: Option<string>,
    roomCategory: Option<string>, propertyId: nat, checkIn: Date, checkOut: Date,
    guests: int, message: string): (r: BookingInquiry)
    ensures r.status == "pending"
    ensures ParseStatus(r.status) == Some(DefaultStatus)
    ensures r.firstName == firstName && r.lastName == lastName && r.phone == phone
    ensures r.email == email && r.roomCategory == roomCategory && r.propertyId == propertyId
    ensures r.checkIn == checkIn && r.checkOut == checkOut && r.guests == guests && r.message == message
  {
    BookingInquiry(firstName, lastName, phone, email, roomCategory, propertyId,
                   StatusValue(DefaultStatus), checkIn, checkOut, guests, message)
  }

  /**
   A staff edit of the status through a validated form: the new value is
   written when it is one of the choices, and rejected otherwise, leaving
   the inquiry as it was. No other field changes.
   */
  function UpdateStatus(q: BookingInquiry, v: string): (r: Option<BookingInquiry>)
    ensures r.Some? <==> v in {"pending", "confirmed", "cancelled"}
    ensures r.Some? ==> r.value.status == v && r.value.(status := q.status) == q
  {
    if ParseStatus(v).Some? then Some(q.(status := v)) else None
  }

  /** A sequence of attempted status edits; rejected ones leave the inquiry unchanged. */
  function ApplyStatusEdits(q: BookingInquiry, edits: seq<string>): (r: BookingInquiry)
    ensures r.(status := q.status) == q
    decreases |edits|
  {
    if |edits| == 0 then q
    else
      var next := match UpdateStatus(q, edits[0]) case Some(q') => q' case None => q;
      ApplyStatusEdits(next, edits[1..])
  }

  /** Status edits keep a valid status column valid. */
  lemma {:induction false} StatusEditsPreserveValidity(q: BookingInquiry, edits: seq<string>)
    requires HasValidStatus(q)
    ensures HasValidStatus(ApplyStatusEdits(q, edits))
    decreases |edits|
  {
    if |edits| > 0 {
      var next := match UpdateStatus(q, edits[0]) case Some(q') => q' case None => q;
      StatusEditsPreserveValidity(next, edits[1..]);
    }
  }

  /**
   Every inquiry the code's writers can produce, created and then edited any
   number of times, holds one of the three choices in its status column.
   */
  lemma StatusInDomain(
    firstName: string, lastName: string, phone: string, email: Option<string>,
    roomCategory: Option<string>, propertyId: nat, checkIn: Date, checkOut: Date,
    guests: int, message: string, edits: seq<string>)
    ensures var q := ApplyStatusEdits(NewInquiry(firstName, lastName, phone, email, roomCategory,
                                                 propertyId, checkIn, checkOut, guests, message), edits);
            q.status in {"pending", "confirmed", "cancelled"}
  {
    var q0 := NewInquiry(firstName, lastName, phone, email, roomCategory,
                         propertyId, checkIn, checkOut, guests, message);
    StatusEditsPreserveValidity(q0, edits);
  }
}
