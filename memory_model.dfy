/**
 * The Memory schema of models/Memory.js: the fields a stored memory has, the
 * trim setters Mongoose applies when a value is assigned, the validators it
 * runs before every write (required, maxlength, enum), and the automatic
 * createdAt/updatedAt timestamps.
 *
 * The schema declares no `cloudinaryPublicId` path, so under Mongoose's
 * default strict mode a value given for it is never stored: `Content` has no
 * such field.
 */
module MemoryModel {
  import opened Wrappers
  import opened Js

  /** The `enum: ['image', 'video']` of mediaType, as a type. */
  datatype MediaType = Image | Video

  /** The schema paths of a memory, as stored. */
  datatype Content = Content(
    title: string,
    description: Option<string>,
    mediaUrl: string,
    mediaType: MediaType,
    location: Option<string>,
    tags: seq<string>)

  /** A stored memory: its content and the timestamps the schema maintains. */
  datatype Memory = Memory(content: Content, createdAt: nat, updatedAt: nat)

  const TitleMaxLength: nat := 100
  const DescriptionMaxLength: nat := 1000

  /** The values a handler assigns to a memory's paths before a write: the text
      paths are still raw body fields, the tags already an array of strings. */
  datatype Doc = Doc(
    title: Field,
    description: Field,
    location: Field,
    tags: seq<string>,
    mediaUrl: string,
    mediaType: MediaType)

  /** The validators: title required (an empty string fails `required`) and at
      most 100 UTF-16 units, description at most 1000, mediaUrl required.
      mediaType is required and in its enum by its type. */
  predicate Valid(c: Content)
  {
    && c.title != "" && Utf16Length(c.title) <= TitleMaxLength
    && (c.description.Some? ==> Utf16Length(c.description.value) <= DescriptionMaxLength)
    && c.mediaUrl != ""
  }

  /** What the trim setters guarantee of every stored value. */
  predicate Normalized(c: Content)
  {
    && Trimmed(c.title)
    && (c.description.Some? ==> Trimmed(c.description.value))
    && (c.location.Some? ==> Trimmed(c.location.value))
    && (forall i :: 0 <= i < |c.tags| ==> Trimmed(c.tags[i]))
  }

  /** A value assigned to a `String` path with `trim: true`: `undefined` leaves
      the path unset, a string is trimmed, and an array is a CastError, which
      the next write reports as a ValidationError. */
  datatype Cast = Unset | Value(s: string) | CastError

  function CastTrimmed(f: Field): (c: Cast)
    ensures c.Value? ==> Trimmed(c.s)
  {
    match f
    case Missing => Unset
    case Text(s) => Value(Trim(s))
    case Many(_) => CastError
  }

  /** Each tag through its path's trim setter. */
  function TrimEach(tags: seq<string>): (r: seq<string>)
    ensures |r| == |tags|
    ensures forall i :: 0 <= i < |r| ==> Trimmed(r[i])
  {
    seq(|tags|, i requires 0 <= i < |tags| => Trim(tags[i]))
  }

  /** The conditions under which Mongoose accepts a document, stated on the
      values assigned to it. */
  predicate Accepts(d: Doc)
  {
    && d.title.Text? && Trim(d.title.s) != "" && Utf16Length(Trim(d.title.s)) <= TitleMaxLength
    && !d.description.Many?
    && (d.description.Text? ==> Utf16Length(Trim(d.description.s)) <= DescriptionMaxLength)
    && !d.location.Many?
    && d.mediaUrl != ""
  }

  /** Casting through the setters, then validating: the content that is
      written, or None for a ValidationError. */
  function Build(d: Doc): (r: Option<Content>)
    ensures r.Some? <==> Accepts(d)
    ensures r.Some? ==> Valid(r.value)
    ensures r.Some? ==>
      && r.value.title == Trim(d.title.s)
      && r.value.mediaUrl == d.mediaUrl && r.value.mediaType == d.mediaType
      && r.value.tags == TrimEach(d.tags)
      && r.value.description == (if d.description.Text? then Some(Trim(d.description.s)) else None)
      && r.value.location == (if d.location.Text? then Some(Trim(d.location.s)) else None)
  {
    var title := CastTrimmed(d.title);
    var description := CastTrimmed(d.description);
    var location := CastTrimmed(d.location);
    if title.Value? && !description.CastError? && !location.CastError? then
      Checked(Content(title.s, Assigned(description), d.mediaUrl, d.mediaType, Assigned(location), TrimEach(d.tags)))
    else
      None
  }

  /** Every value Build writes has been through its trim setter. */
  lemma BuiltNormalized(d: Doc)
    requires Build(d).Some?
    ensures Normalized(Build(d).value)
  {
    var c := Build(d).value;
    assert Trimmed(c.title);
    assert c.description.Some? ==> Trimmed(c.description.value);
    assert c.location.Some? ==> Trimmed(c.location.value);
  }

  /** The stored value of an optional path after a successful cast. */
  function Assigned(c: Cast): Option<string>
    requires !c.CastError?
  {
    if c.Value? then Some(c.s) else None
  }

  function Checked(c: Content): Option<Content>
  {
    if Valid(c) then Some(c) else None
  }

  /** The document a handler produces when it assigns a stored memory's own
      values back to it. */
  function Reassigned(c: Content): Doc
  {
    Doc(Text(c.title), OptionalText(c.description), OptionalText(c.location), c.tags, c.mediaUrl, c.mediaType)
  }

  function OptionalText(v: Option<string>): Field
  {
    match v
    case None => Missing
    case Some(s) => Text(s)
  }

  /** Reassigning a valid stored memory's own values writes it back unchanged:
      the setters are idempotent on what they already produced. */
  lemma RebuildUnchanged(c: Content)
    requires Valid(c) && Normalized(c)
    ensures Build(Reassigned(c)) == Some(c)
  {
    var d := Reassigned(c);
    assert CastTrimmed(d.title) == Value(c.title) by { TrimIdempotent(c.title); }
    assert Assigned(CastTrimmed(d.description)) == c.description by { SetterKeeps(c.description); }
    assert Assigned(CastTrimmed(d.location)) == c.location by { SetterKeeps(c.location); }
    assert TrimEach(d.tags) == c.tags by { TrimEachKeeps(c.tags); }
    BuildOfCasts(c, d);
  }

  lemma TrimEachKeeps(tags: seq<string>)
    requires forall i :: 0 <= i < |tags| ==> Trimmed(tags[i])
    ensures TrimEach(tags) == tags
  {
    forall i | 0 <= i < |tags| ensures TrimEach(tags)[i] == tags[i] {
      TrimIdempotent(tags[i]);
    }
  }

  /** The setters act tag by tag: the first tag's trim, then the rest's. */
  lemma TrimEachCons(t: string, tags: seq<string>)
    ensures TrimEach([t] + tags) == [Trim(t)] + TrimEach(tags)
  {
    var r, s := TrimEach([t] + tags), [Trim(t)] + TrimEach(tags);
    forall i | 0 <= i < |r| ensures r[i] == s[i] {
      TrimEachConsAt(t, tags, i);
    }
    SameElements(r, s);
  }

  lemma TrimEachConsAt(t: string, tags: seq<string>, i: int)
    requires 0 <= i <= |tags|
    ensures TrimEach([t] + tags)[i] == ([Trim(t)] + TrimEach(tags))[i]
  {
    var u := ([t] + tags)[i];
    assert TrimEach([t] + tags)[i] == Trim(u);
    if i == 0 {
      assert u == t;
    } else {
      assert u == tags[i - 1];
      assert ([Trim(t)] + TrimEach(tags))[i] == TrimEach(tags)[i - 1];
    }
  }

  lemma SameElements(r: seq<string>, s: seq<string>)
    requires |r| == |s| && forall i :: 0 <= i < |r| ==> r[i] == s[i]
    ensures r == s
  {
  }

  /** A document whose casts yield exactly a valid content builds that content. */
  lemma BuildOfCasts(c: Content, d: Doc)
    requires d.title.Text? && CastTrimmed(d.title) == Value(c.title)
    requires !CastTrimmed(d.description).CastError? && Assigned(CastTrimmed(d.description)) == c.description
    requires !CastTrimmed(d.location).CastError? && Assigned(CastTrimmed(d.location)) == c.location
    requires TrimEach(d.tags) == c.tags && d.mediaUrl == c.mediaUrl && d.mediaType == c.mediaType
    requires Valid(c)
    ensures Build(d) == Some(c)
  {
  }

  lemma SetterKeeps(v: Option<string>)
    requires v.Some? ==> Trimmed(v.value)
    ensures !CastTrimmed(OptionalText(v)).CastError?
    ensures Assigned(CastTrimmed(OptionalText(v))) == v
  {
    if v.Some? { TrimIdempotent(v.value); }
  }

  /** A title of only whitespace passes a truthiness check but fails the
      schema: it trims to the empty string, which `required` rejects. */
  lemma BlankTitleRejected(d: Doc)
    requires d.title.Text? && d.title.s != "" && AllWhitespace(d.title.s)
    ensures Build(d) == None
  {
    TrimPadded(d.title.s, "", "");
    assert d.title.s + "" + "" == d.title.s;
  }
}
