/**
 * The request handlers of controllers/memoryController.js, over a store of
 * memories, a blob store and a log of the outside calls that change either.
 *
 * Every outside call that can fail (the database query or write, the blob
 * store's destroy) takes a parameter saying whether it throws and what; the
 * id a new document gets, the clock, and the `:id` route parameter (already
 * cast to an ObjectId, or absent when the cast fails) are parameters too.
 */
module MemoryController {
  import opened Wrappers
  import opened Js
  import opened MemoryModel
  import Cloudinary
  import Routes

  /** An ObjectId, ordered as a number. */
  type Id = nat

  /** What an outside call throws, as the handlers tell errors apart: by
      `code === 11000` (a duplicate key), by `name === 'ValidationError'`,
      or neither. */
  datatype Thrown = Dup11000 | Validation | Other

  /** The outside calls that change the stores, in the order they are made. */
  datatype Effect =
    | CreateRecord(id: Id)      // Memory.create
    | SaveRecord(id: Id)        // document.save
    | DeleteRecord(id: Id)      // Memory.findByIdAndDelete
    | Destroy(publicId: string) // cloudinary.uploader.destroy

  /** The text fields of a multipart request body. */
  datatype Body = Body(title: Field, description: Field, location: Field, tags: Field)

  /** A stored memory together with its `_id`, as a response carries it. */
  datatype Entry = Entry(id: Id, memory: Memory)

  datatype Payload = NoData | Single(entry: Entry) | Listing(entries: seq<Entry>) | EmptyObject

  /** A JSON response: its status and the keys the handler writes. */
  datatype Reply = Reply(status: nat, success: bool, message: Option<string>, error: Option<string>, count: Option<nat>, data: Payload)

  function ErrorReply(status: nat, message: string, code: string): Reply
  {
    Reply(status, false, Some(message), Some(code), None, NoData)
  }

  const NoFileReply := ErrorReply(400, "Please upload a file", "NO_FILE_UPLOADED")
  const MissingFieldsReply := ErrorReply(400, "Title and description are required", "MISSING_REQUIRED_FIELDS")
  const DuplicateReply := ErrorReply(400, "A memory with this title already exists", "DUPLICATE_TITLE")
  const CreatedMessage := "Memory created successfully"
  /** The 500 of the read and update handlers. */
  const ServerErrorReply := Reply(500, false, None, Some("Server error"), None, NoData)
  const NotFoundReply := Reply(404, false, None, Some("Memory not found"), None, NoData)
  /** The delete handler words its failures under `message` instead. */
  const DeleteServerErrorReply := Reply(500, false, Some("Server Error"), None, None, NoData)
  const DeleteNotFoundReply := Reply(404, false, Some("Memory not found"), None, None, NoData)
  const DeletedReply := Reply(200, true, Some("Memory deleted successfully"), None, None, EmptyObject)

  // ---------------------------------------------------------------------------
  // Derived values

  /** A tag as the handlers produce it: trimmed, and without the separator. */
  predicate TagText(t: string)
  {
    Trimmed(t) && ',' !in t
  }

  /** `filter(tag => tag.length > 0)`. */
  function DropEmpty(xs: seq<string>): (r: seq<string>)
    ensures |r| <= |xs|
    ensures forall i :: 0 <= i < |r| ==> r[i] != ""
    ensures (forall i :: 0 <= i < |xs| ==> TagText(xs[i])) ==> forall i :: 0 <= i < |r| ==> TagText(r[i])
    ensures (forall i :: 0 <= i < |xs| ==> xs[i] != "") ==> r == xs
  {
    if |xs| == 0 then []
    else
      var rest := DropEmpty(xs[1..]);
      assert forall i :: 1 <= i < |xs| ==> xs[i] == xs[1..][i - 1];
      (if xs[0] == "" then [] else [xs[0]]) + rest
  }

  /** Every non-empty tag is kept as often as it occurs. */
  lemma {:induction false} DropEmptyCounts(xs: seq<string>, x: string)
    requires x != ""
    ensures multiset(DropEmpty(xs))[x] == multiset(xs)[x]
    decreases |xs|
  {
    if |xs| > 0 {
      DropEmptyCounts(xs[1..], x);
      assert xs == [xs[0]] + xs[1..];
    }
  }

  /** The filter keeps order: it works piece by piece, so dropping from a
      concatenation is concatenating what is kept of each part. */
  lemma {:induction false} DropEmptyConcat(a: seq<string>, b: seq<string>)
    ensures DropEmpty(a + b) == DropEmpty(a) + DropEmpty(b)
    decreases |a|
  {
    if |a| == 0 {
      assert a + b == b;
    } else {
      var tail := a[1..];
      var head := if a[0] == "" then [] else [a[0]];
      assert DropEmpty(a + b) == head + DropEmpty(tail + b) by {
        DropEmptyStep(a + b);
        assert (a + b)[1..] == tail + b;
      }
      assert DropEmpty(a) == head + DropEmpty(tail) by {
        DropEmptyStep(a);
      }
      DropEmptyConcat(tail, b);
      SeqAssoc(head, DropEmpty(tail), DropEmpty(b));
    }
  }

  lemma DropEmptyStep(xs: seq<string>)
    requires |xs| > 0
    ensures DropEmpty(xs) == (if xs[0] == "" then [] else [xs[0]]) + DropEmpty(xs[1..])
  {
  }

  lemma SeqAssoc(x: seq<string>, y: seq<string>, z: seq<string>)
    ensures x + (y + z) == x + y + z
  {
  }

  /** One piece is kept exactly when it is non-empty. */
  lemma DropEmptyOne(x: string)
    ensures DropEmpty([x]) == (if x == "" then [] else [x])
  {
    assert [x][1..] == [];
  }

  /** Create's tags: a non-empty string is split on ',', each piece trimmed
      and the empty ones dropped; anything else gives no tags. */
  function CreateTags(tags: Field): (r: seq<string>)
    ensures forall i :: 0 <= i < |r| ==> r[i] != "" && Trimmed(r[i]) && ',' !in r[i]
    ensures !(tags.Text? && tags.s != "") ==> r == []
  {
    if tags.Text? && tags.s != "" then
      var pieces := TrimEach(Split(tags.s, ','));
      assert forall i :: 0 <= i < |pieces| ==> ',' !in pieces[i] by {
        forall i | 0 <= i < |pieces| ensures ',' !in pieces[i] {
          TrimWithin(Split(tags.s, ',')[i], ',');
        }
      }
      DropEmpty(pieces)
    else []
  }

  /** Update's tags: the string split on ',' and each piece trimmed, empty
      pieces kept. */
  function UpdateTags(s: string): (r: seq<string>)
    ensures |r| == Count(s, ',') + 1
    ensures forall i :: 0 <= i < |r| ==> Trimmed(r[i]) && ',' !in r[i]
  {
    SplitLength(s, ',');
    var pieces := Split(s, ',');
    assert forall i :: 0 <= i < |pieces| ==> ',' !in Trim(pieces[i]) by {
      forall i | 0 <= i < |pieces| ensures ',' !in Trim(pieces[i]) {
        TrimWithin(pieces[i], ',');
      }
    }
    TrimEach(pieces)
  }

  /** Tags typed as a ','-joined list of trimmed, non-empty names come back
      as that list from create. */
  lemma CreateTagsOfList(ts: seq<string>)
    requires |ts| >= 1
    requires forall i :: 0 <= i < |ts| ==> ts[i] != "" && Trimmed(ts[i]) && ',' !in ts[i]
    ensures CreateTags(Text(Join(ts, ','))) == ts
  {
    var joined := Join(ts, ',');
    SplitJoin(ts, ',');
    assert joined != "" by {
      assert Split("", ',') == [""];
    }
    TrimEachKeeps(ts);
    assert TrimEach(Split(joined, ',')) == ts;
  }

  /** Update turns a ','-joined list of trimmed names, empty ones included,
      back into that list. */
  lemma UpdateTagsOfList(ts: seq<string>)
    requires |ts| >= 1
    requires forall i :: 0 <= i < |ts| ==> Trimmed(ts[i]) && ',' !in ts[i]
    ensures UpdateTags(Join(ts, ',')) == ts
  {
    SplitJoin(ts, ',');
    TrimEachKeeps(ts);
  }

  /** Tag `i` as typed: the name with whitespace before and after it. */
  function Padded(pre: seq<string>, ts: seq<string>, post: seq<string>): seq<string>
    requires |pre| == |ts| == |post|
  {
    seq(|ts|, i requires 0 <= i < |ts| => pre[i] + ts[i] + post[i])
  }

  /** Whatever whitespace surrounds each comma-free trimmed name, update
      gives back exactly the names: piece `i` becomes the trim of piece `i`. */
  lemma UpdateTagsOfPadded(pre: seq<string>, ts: seq<string>, post: seq<string>)
    requires |ts| >= 1 && |pre| == |ts| == |post|
    requires forall i :: 0 <= i < |ts| ==> Trimmed(ts[i]) && ',' !in ts[i]
    requires forall i :: 0 <= i < |ts| ==> AllWhitespace(pre[i]) && AllWhitespace(post[i])
    ensures UpdateTags(Join(Padded(pre, ts, post), ',')) == ts
  {
    var ps := Padded(pre, ts, post);
    forall i | 0 <= i < |ps| ensures ',' !in ps[i] {
      PaddingHasNoComma(pre[i], ts[i], post[i]);
    }
    SplitJoin(ps, ',');
    TrimEachPadded(pre, ts, post);
  }

  /** The same for create, whose names are non-empty. */
  lemma CreateTagsOfPadded(pre: seq<string>, ts: seq<string>, post: seq<string>)
    requires |ts| >= 1 && |pre| == |ts| == |post|
    requires forall i :: 0 <= i < |ts| ==> ts[i] != "" && Trimmed(ts[i]) && ',' !in ts[i]
    requires forall i :: 0 <= i < |ts| ==> AllWhitespace(pre[i]) && AllWhitespace(post[i])
    ensures CreateTags(Text(Join(Padded(pre, ts, post), ','))) == ts
  {
    var ps := Padded(pre, ts, post);
    var joined := Join(ps, ',');
    UpdateTagsOfPadded(pre, ts, post);
    assert joined != "" by {
      forall i | 0 <= i < |ps| ensures ',' !in ps[i] {
        PaddingHasNoComma(pre[i], ts[i], post[i]);
      }
      SplitJoin(ps, ',');
      assert Split("", ',') == [""];
      assert |ps[0]| >= |ts[0]| > 0;
    }
    CreateDropsWhatUpdateKeeps(joined);
  }

  lemma PaddingHasNoComma(a: string, m: string, b: string)
    requires AllWhitespace(a) && AllWhitespace(b) && ',' !in m
    ensures ',' !in a + m + b
  {
  }

  lemma TrimEachPadded(pre: seq<string>, ts: seq<string>, post: seq<string>)
    requires |pre| == |ts| == |post|
    requires forall i :: 0 <= i < |ts| ==> Trimmed(ts[i])
    requires forall i :: 0 <= i < |ts| ==> AllWhitespace(pre[i]) && AllWhitespace(post[i])
    ensures TrimEach(Padded(pre, ts, post)) == ts
  {
    var r := TrimEach(Padded(pre, ts, post));
    forall i | 0 <= i < |r| ensures r[i] == ts[i] {
      TrimPadded(pre[i], ts[i], post[i]);
    }
    SameElements(r, ts);
  }

  /** Create's tags are update's tags with the empty ones dropped. */
  lemma CreateDropsWhatUpdateKeeps(s: string)
    requires s != ""
    ensures CreateTags(Text(s)) == DropEmpty(UpdateTags(s))
  {
  }

  /** Two commas in a row: create drops the empty tag that update keeps. */
  lemma TagsDiffer(a: string, b: string)
    requires a != "" && b != "" && TagText(a) && TagText(b)
    ensures UpdateTags(a + ",," + b) == [a, "", b]
    ensures CreateTags(Text(a + ",," + b)) == [a, b]
  {
    var ts := [a, "", b];
    JoinWithEmpty(a, b);
    UpdateTagsOfList(ts);
    CreateDropsWhatUpdateKeeps(a + ",," + b);
    DropMiddleEmpty(a, b);
  }

  lemma JoinWithEmpty(a: string, b: string)
    ensures Join([a, "", b], ',') == a + ",," + b
  {
    var ts := [a, "", b];
    assert Join(ts[1..], ',') == [','] + b;
    assert a + [','] + ([','] + b) == a + ",," + b;
  }

  lemma DropMiddleEmpty(a: string, b: string)
    requires a != "" && b != ""
    ensures DropEmpty([a, "", b]) == [a, b]
  {
    var ts := [a, "", b];
    assert DropEmpty(ts[2..]) == [b];
    assert DropEmpty(ts[1..]) == [b];
  }

  /** Tags typed with a space after the comma and trailing commas: the
      spaces are trimmed away and the empty pieces dropped. */
  lemma SpacedTags(a: string, b: string)
    requires a != "" && b != "" && TagText(a) && TagText(b)
    ensures CreateTags(Text(a + ", " + b + ",,")) == [a, b]
  {
    var s := a + ", " + b + ",,";
    var spaced := " " + b;
    var raw := [a, spaced, "", ""];
    assert Split(s, ',') == raw by {
      JoinSpaced(a, b);
      SplitJoin(raw, ',');
    }
    assert TrimEach(raw) == [a, b, "", ""] by {
      TrimSpaced(a, b);
    }
    DropTwoEmpty(a, b);
    CreateDropsWhatUpdateKeeps(s);
  }

  lemma JoinSpaced(a: string, b: string)
    requires ',' !in a && ',' !in b
    ensures Join([a, " " + b, "", ""], ',') == a + ", " + b + ",,"
    ensures ',' !in " " + b
  {
    var spaced := " " + b;
    var raw := [a, spaced, "", ""];
    assert ',' !in spaced by {
      assert forall c :: c in spaced ==> c == ' ' || c in b;
    }
    assert Join(raw[2..], ',') == [','];
    assert Join(raw[1..], ',') == spaced + [','] + [','];
    assert a + [','] + (spaced + [','] + [',']) == a + ", " + b + ",,";
  }

  lemma TrimSpaced(a: string, b: string)
    requires Trimmed(a) && Trimmed(b)
    ensures TrimEach([a, " " + b, "", ""]) == [a, b, "", ""]
  {
    assert Trim(a) == a by {
      TrimIdempotent(a);
    }
    assert Trim(" " + b) == b by {
      LeadingSpaceTrimmed(b);
    }
    assert Trim("") == "" by {
      TrimIdempotent("");
    }
    TrimEachFour(a, " " + b, "", "", a, b, "", "");
  }

  lemma TrimEachFour(w: string, x: string, y: string, z: string, w': string, x': string, y': string, z': string)
    requires Trim(w) == w' && Trim(x) == x' && Trim(y) == y' && Trim(z) == z'
    ensures TrimEach([w, x, y, z]) == [w', x', y', z']
  {
    var none: seq<string> := [];
    Prepended(w, x, y, z);
    Prepended(w', x', y', z');
    TrimEachCons(z, none);
    TrimEachCons(y, [z]);
    TrimEachCons(x, [y, z]);
    TrimEachCons(w, [x, y, z]);
  }

  /** Four-element lists built one element at a time. */
  lemma Prepended(w: string, x: string, y: string, z: string)
    ensures [z] + [] == [z]
    ensures [y] + [z] == [y, z]
    ensures [x] + [y, z] == [x, y, z]
    ensures [w] + [x, y, z] == [w, x, y, z]
  {
  }

  lemma LeadingSpaceTrimmed(b: string)
    requires Trimmed(b)
    ensures Trim(" " + b) == b
  {
    var space := " ";
    assert AllWhitespace(space) by {
      assert IsWhitespace(space[0]);
    }
    TrimPadded(space, b, "");
    assert space + b + "" == " " + b;
  }

  lemma DropTwoEmpty(a: string, b: string)
    requires a != "" && b != ""
    ensures DropEmpty([a, b, "", ""]) == [a, b]
  {
    var xs := [a, b, "", ""];
    assert DropEmpty(xs[3..]) == [];
    assert DropEmpty(xs[2..]) == [];
    assert DropEmpty(xs[1..]) == [b];
  }

  /** Example: the tag input 'beach, sunset,,' gives two tags at create.
      The literals come in as parameters pinned by `requires`, which keeps
      the solver from unfolding `CreateTags` on a literal. */
  lemma CreateTagsExample(tags: string, a: string, b: string)
    requires a == "beach" && b == "sunset" && tags == "beach, sunset,,"
    ensures CreateTags(Text(tags)) == ["beach", "sunset"]
  {
    assert TagText(a) && TagText(b);
    SpacedTags(a, b);
    ExampleText(tags, a, b);
  }

  lemma ExampleText(tags: string, a: string, b: string)
    requires a == "beach" && b == "sunset" && tags == "beach, sunset,,"
    ensures a + ", " + b + ",," == tags
  {
    var s := a + ", " + b + ",,";
    assert |s| == |tags|;
    forall i | 0 <= i < |s| ensures s[i] == tags[i] {
    }
  }

  /** `mimetype.startsWith('image/') ? 'image' : 'video'`. */
  function MediaTypeOf(mimetype: string): MediaType
  {
    if StartsWith(mimetype, "image/") then Image else Video
  }

  /** Behind the upload filter, 'video' is only ever given to video types. */
  lemma FilteredMediaType(file: Routes.Incoming, now: nat, rand: real)
    requires 0.0 <= rand < 1.0
    requires Routes.Admit(file, now, rand).Stored?
    ensures MediaTypeOf(Routes.Admit(file, now, rand).file.mimetype) == Video ==> StartsWith(file.mimetype, "video/")
  {
  }

  /** The location create stores when the body gives none. */
  const UnknownLocation := "Unknown"

  lemma UnknownLocationTrimmed()
    ensures Trim(UnknownLocation) == UnknownLocation
  {
    var u := UnknownLocation;
    assert u[0] == 'U' && u[|u| - 1] == 'n';
    TrimIdempotent(u);
  }

  /** `location || 'Unknown'`. */
  function LocationOf(location: Field): Field
  {
    if Truthy(location) then location else Text(UnknownLocation)
  }

  /** The object create hands to `Memory.create`. Its `cloudinaryPublicId`
      is not a schema path and is dropped. */
  function CreateDoc(body: Body, file: Routes.UploadedFile): Doc
  {
    Doc(body.title, body.description, LocationOf(body.location), CreateTags(body.tags), file.path, MediaTypeOf(file.mimetype))
  }

  /** What create stores from a request that passes the schema. */
  lemma CreatedContent(body: Body, file: Routes.UploadedFile)
    requires Build(CreateDoc(body, file)).Some?
    ensures var c := Build(CreateDoc(body, file)).value;
      && c.title == Trim(body.title.s)
      && (body.description.Text? ==> c.description == Some(Trim(body.description.s)))
      && c.mediaUrl == file.path
      && (c.mediaType == Image <==> StartsWith(file.mimetype, "image/"))
      && (Truthy(body.location) ==> body.location.Text? && c.location == Some(Trim(body.location.s)))
      && (!Truthy(body.location) ==> c.location == Some(UnknownLocation))
      && c.tags == CreateTags(body.tags)
  {
    var d := CreateDoc(body, file);
    var c := Build(d).value;
    assert c.title == Trim(body.title.s) && c.mediaUrl == file.path;
    assert c.mediaType == MediaTypeOf(file.mimetype);
    assert body.description.Text? ==> c.description == Some(Trim(body.description.s));
    assert c.tags == CreateTags(body.tags) by {
      TrimEachKeeps(CreateTags(body.tags));
    }
    CreatedLocation(body, file);
  }

  lemma CreatedLocation(body: Body, file: Routes.UploadedFile)
    requires Build(CreateDoc(body, file)).Some?
    ensures var c := Build(CreateDoc(body, file)).value;
      && (Truthy(body.location) ==> body.location.Text? && c.location == Some(Trim(body.location.s)))
      && (!Truthy(body.location) ==> c.location == Some(UnknownLocation))
  {
    var c := Build(CreateDoc(body, file)).value;
    if !Truthy(body.location) {
      assert c.location == Some(Trim(UnknownLocation));
      UnknownLocationTrimmed();
    }
  }

  /** The values update assigns: each falsy field keeps the stored value and
      truthy tags are replaced by their split. Tags that are an array are not
      covered: `split` is not a function there. */
  function UpdatedDoc(c: Content, body: Body): Doc
    requires !body.tags.Many?
  {
    Doc(
      if Truthy(body.title) then body.title else Text(c.title),
      if Truthy(body.description) then body.description else OptionalText(c.description),
      if Truthy(body.location) then body.location else OptionalText(c.location),
      if Truthy(body.tags) then UpdateTags(body.tags.s) else c.tags,
      c.mediaUrl,
      c.mediaType)
  }

  /** What an update stores: what the body does not give is kept, what it
      gives is trimmed, and the media fields never change. */
  lemma UpdatedContent(c: Content, body: Body)
    requires MemoryModel.Valid(c) && Normalized(c)
    requires !body.tags.Many?
    requires Build(UpdatedDoc(c, body)).Some?
    ensures var u := Build(UpdatedDoc(c, body)).value;
      && u.title == (if Truthy(body.title) then Trim(body.title.s) else c.title)
      && (Truthy(body.description) ==> u.description == Some(Trim(body.description.s)))
      && (!Truthy(body.description) ==> u.description == c.description)
      && (Truthy(body.location) ==> u.location == Some(Trim(body.location.s)))
      && (!Truthy(body.location) ==> u.location == c.location)
      && u.tags == (if Truthy(body.tags) then UpdateTags(body.tags.s) else c.tags)
      && u.mediaUrl == c.mediaUrl && u.mediaType == c.mediaType
  {
    UpdatedTitle(c, body);
    UpdatedDescription(c, body);
    UpdatedLocation(c, body);
    UpdatedTags(c, body);
  }

  lemma UpdatedTitle(c: Content, body: Body)
    requires Normalized(c) && !body.tags.Many? && Build(UpdatedDoc(c, body)).Some?
    ensures Build(UpdatedDoc(c, body)).value.title == (if Truthy(body.title) then Trim(body.title.s) else c.title)
  {
    TrimIdempotent(c.title);
  }

  lemma UpdatedDescription(c: Content, body: Body)
    requires Normalized(c) && !body.tags.Many? && Build(UpdatedDoc(c, body)).Some?
    ensures !Truthy(body.description) ==> Build(UpdatedDoc(c, body)).value.description == c.description
  {
    SetterKeeps(c.description);
  }

  lemma UpdatedLocation(c: Content, body: Body)
    requires Normalized(c) && !body.tags.Many? && Build(UpdatedDoc(c, body)).Some?
    ensures !Truthy(body.location) ==> Build(UpdatedDoc(c, body)).value.location == c.location
  {
    SetterKeeps(c.location);
  }

  lemma UpdatedTags(c: Content, body: Body)
    requires Normalized(c) && !body.tags.Many? && Build(UpdatedDoc(c, body)).Some?
    ensures Build(UpdatedDoc(c, body)).value.tags == (if Truthy(body.tags) then UpdateTags(body.tags.s) else c.tags)
  {
    if Truthy(body.tags) {
      TrimEachKeeps(UpdateTags(body.tags.s));
    } else {
      TrimEachKeeps(c.tags);
    }
  }

  /** An update whose body gives nothing writes the stored content back
      unchanged. */
  lemma EmptyUpdateKeeps(c: Content, body: Body)
    requires MemoryModel.Valid(c) && Normalized(c)
    requires !Truthy(body.title) && !Truthy(body.description) && !Truthy(body.location) && !Truthy(body.tags)
    ensures Build(UpdatedDoc(c, body)) == Some(c)
  {
    assert UpdatedDoc(c, body) == Reassigned(c);
    RebuildUnchanged(c);
  }

  /** The automatic timestamps on a save: createdAt never moves, updatedAt
      moves to the save time only when some path changed. */
  function Touch(m: Memory, c: Content, now: nat): (r: Memory)
    ensures r.content == c && r.createdAt == m.createdAt
    ensures r.updatedAt == m.updatedAt || r.updatedAt == now
    ensures c == m.content ==> r == m
    ensures c != m.content ==> r.updatedAt == now
  {
    Memory(c, m.createdAt, if c == m.content then m.updatedAt else now)
  }

  /** `save()` after update's assignments: the stored memory it leaves, or
      None when validation fails or the write throws. */
  function SaveResult(m: Memory, body: Body, now: nat, fault: Option<Thrown>): (r: Option<Memory>)
    requires !body.tags.Many?
    ensures r.Some? <==> Accepts(UpdatedDoc(m.content, body)) && fault.None?
    ensures r.Some? ==> Stored(r.value)
    ensures r.Some? ==> r.value.createdAt == m.createdAt
    ensures r.Some? ==> Build(UpdatedDoc(m.content, body)) == Some(r.value.content)
    ensures r.Some? ==> r.value == Touch(m, r.value.content, now)
  {
    match Build(UpdatedDoc(m.content, body))
    case None => None
    case Some(c) =>
      BuiltNormalized(UpdatedDoc(m.content, body));
      if fault.Some? then None else Some(Touch(m, c, now))
  }

  // ---------------------------------------------------------------------------
  // Memory.create and the catch blocks of create

  datatype CreateResult = Created(content: Content) | Rejected(thrown: Thrown)

  /** `Memory.create`: the setters and validators first, then the insert,
      whose only unique index is `_id`, then whatever else the write throws. */
  function CreateCall(records: map<Id, Memory>, id: Id, d: Doc, fault: Option<Thrown>): (r: CreateResult)
    ensures r.Created? <==> Accepts(d) && id !in records && fault.None?
    ensures r.Created? ==> Build(d) == Some(r.content)
    ensures !Accepts(d) ==> r == Rejected(Validation)
    ensures Accepts(d) && id in records ==> r == Rejected(Dup11000)
    ensures Accepts(d) && id !in records && fault.Some? ==> r == Rejected(fault.value)
  {
    match Build(d)
    case None => Rejected(Validation)
    case Some(c) =>
      if id in records then Rejected(Dup11000)
      else if fault.Some? then Rejected(fault.value)
      else Created(c)
  }

  /** The outer catch of create. */
  function CreateCatch(e: Thrown): Reply
  {
    if e == Validation then ErrorReply(400, "Validation failed", "VALIDATION_ERROR")
    else ErrorReply(500, "An unexpected error occurred", "SERVER_ERROR")
  }

  /** The inner catch of create: a duplicate key is answered there, anything
      else is rethrown to the outer catch. */
  function CreateFailure(e: Thrown): (r: Reply)
    ensures !r.success && r.data == NoData
    ensures r.status == 400 <==> e != Other
    ensures r.error == Some(match e
      case Dup11000 => "DUPLICATE_TITLE"
      case Validation => "VALIDATION_ERROR"
      case Other => "SERVER_ERROR")
  {
    if e == Dup11000 then DuplicateReply else CreateCatch(e)
  }

  // ---------------------------------------------------------------------------
  // deleteFile's calls and what they change

  function DestroyCalls(url: string): seq<Effect>
  {
    if url == "" then [] else [Destroy(Cloudinary.PublicId(url))]
  }

  function BlobsAfter(blobs: set<string>, url: string, fault: Option<Thrown>): (r: set<string>)
    ensures r <= blobs
    ensures blobs - r <= {Cloudinary.PublicId(url)}
  {
    if url != "" && fault.None? then blobs - {Cloudinary.PublicId(url)} else blobs
  }

  // ---------------------------------------------------------------------------
  // Delete's choice of what to destroy

  /** Reading a path the schema does not declare gives `undefined`: the
      `cloudinaryPublicId` create passes is never stored. */
  function StoredPublicId(m: Memory): Option<string>
  {
    None
  }

  /** The argument delete hands to `deleteFile`: the public id when truthy,
      else the media URL when truthy, else no call. */
  function DeleteTarget(publicId: Option<string>, mediaUrl: string): Option<string>
  {
    if publicId.Some? && publicId.value != "" then publicId
    else if mediaUrl != "" then Some(mediaUrl)
    else None
  }

  /** Deleting a memory created from a stored upload destroys the blob named
      by that upload's file name, 'memory-<time>-<suffix>'. */
  lemma DeleteDestroysUploadName(m: Memory, now: nat, rand: real, originalname: string)
    requires 0.0 <= rand < 1.0
    requires m.content.mediaUrl == Routes.Destination + Routes.StoredFilename(now, rand, originalname)
    ensures DeleteTarget(StoredPublicId(m), m.content.mediaUrl) == Some(m.content.mediaUrl)
    ensures DestroyCalls(m.content.mediaUrl)
         == [Destroy(Routes.FilenamePrefix + Decimal(now) + "-" + Decimal(Routes.RandomSuffix(rand)))]
  {
    Routes.StoredPathPublicId(now, rand, originalname);
  }

  // ---------------------------------------------------------------------------
  // The listing order

  /** `sort({ createdAt: -1 })`, with ties put in ascending id order. */
  predicate Earlier(a: Entry, b: Entry)
  {
    a.memory.createdAt > b.memory.createdAt || (a.memory.createdAt == b.memory.createdAt && a.id < b.id)
  }

  predicate IsFirst(m: map<Id, Memory>, k: Id)
  {
    k in m && forall j :: j in m && j != k ==> Earlier(Entry(k, m[k]), Entry(j, m[j]))
  }

  lemma {:induction false} FirstExists(m: map<Id, Memory>)
    requires m != map[]
    ensures exists k :: IsFirst(m, k)
    decreases m.Keys
  {
    var j :| j in m;
    var rest := m - {j};
    if rest == map[] {
      assert forall i :: i in m && i != j ==> i in rest;
      assert IsFirst(m, j);
    } else {
      assert rest.Keys < m.Keys;
      FirstExists(rest);
      var k :| IsFirst(rest, k);
      assert k in m && k != j && m[k] == rest[k];
      if Earlier(Entry(j, m[j]), Entry(k, m[k])) {
        forall i | i in m && i != j ensures Earlier(Entry(j, m[j]), Entry(i, m[i])) {
          if i != k {
            assert i in rest && Earlier(Entry(k, rest[k]), Entry(i, rest[i]));
          }
        }
        assert IsFirst(m, j);
      } else {
        forall i | i in m && i != k ensures Earlier(Entry(k, m[k]), Entry(i, m[i])) {
          if i != j {
            assert i in rest && Earlier(Entry(k, rest[k]), Entry(i, rest[i]));
          }
        }
        assert IsFirst(m, k);
      }
    }
  }

  /** At most one memory comes first: the order is total on distinct ids. */
  lemma FirstUnique(m: map<Id, Memory>)
    ensures forall k1, k2 :: IsFirst(m, k1) && IsFirst(m, k2) ==> k1 == k2
  {
  }

  /** `es` holds each stored memory exactly once, under its own id. */
  predicate Lists(es: seq<Entry>, m: map<Id, Memory>)
  {
    && (forall i :: 0 <= i < |es| ==> es[i].id in m && m[es[i].id] == es[i].memory)
    && (forall i, j :: 0 <= i < j < |es| ==> es[i].id != es[j].id)
    && (forall k :: k in m ==> exists i :: 0 <= i < |es| && es[i].id == k)
  }

  predicate NewestFirstOrder(es: seq<Entry>)
  {
    forall i, j :: 0 <= i < j < |es| ==> es[i].memory.createdAt >= es[j].memory.createdAt
  }

  /** All stored memories, newest first. */
  function NewestFirst(m: map<Id, Memory>): (r: seq<Entry>)
    ensures Lists(r, m) && NewestFirstOrder(r)
    ensures |r| == |m|
    decreases m.Keys
  {
    if m == map[] then []
    else
      FirstExists(m);
      FirstUnique(m);
      var k :| IsFirst(m, k);
      var rest := m - {k};
      assert rest.Keys < m.Keys;
      var tail := NewestFirst(rest);
      FirstThenRest(m, k, tail);
      [Entry(k, m[k])] + tail
  }

  /** The first entry followed by a listing of the others lists them all. */
  lemma FirstThenRest(m: map<Id, Memory>, k: Id, tail: seq<Entry>)
    requires IsFirst(m, k)
    requires Lists(tail, m - {k}) && NewestFirstOrder(tail) && |tail| == |m - {k}|
    ensures var r := [Entry(k, m[k])] + tail;
      Lists(r, m) && NewestFirstOrder(r) && |r| == |m|
  {
    var r := [Entry(k, m[k])] + tail;
    assert |m| == |m - {k}| + 1 by {
      RemoveOne(m, k);
    }
    assert Lists(r, m) by {
      FirstThenRestLists(m, k, tail);
    }
    assert NewestFirstOrder(r) by {
      FirstThenRestOrder(m, k, tail);
    }
  }

  lemma RemoveOne(m: map<Id, Memory>, k: Id)
    requires k in m
    ensures |m - {k}| == |m| - 1
  {
    var rest := m - {k};
    assert m.Keys == rest.Keys + {k};
    assert k !in rest.Keys;
  }

  lemma FirstThenRestLists(m: map<Id, Memory>, k: Id, tail: seq<Entry>)
    requires k in m && Lists(tail, m - {k})
    ensures Lists([Entry(k, m[k])] + tail, m)
  {
    var rest := m - {k};
    var r := [Entry(k, m[k])] + tail;
    assert forall i :: 1 <= i < |r| ==> r[i] == tail[i - 1];
    forall j | j in m ensures exists i :: 0 <= i < |r| && r[i].id == j {
      if j != k {
        assert j in rest;
        var i :| 0 <= i < |tail| && tail[i].id == j;
        assert r[i + 1].id == j;
      } else {
        assert r[0].id == j;
      }
    }
    forall i, j | 0 <= i < j < |r| ensures r[i].id != r[j].id {
      if i == 0 {
        assert tail[j - 1].id in rest;
      }
    }
  }

  lemma FirstThenRestOrder(m: map<Id, Memory>, k: Id, tail: seq<Entry>)
    requires IsFirst(m, k)
    requires Lists(tail, m - {k}) && NewestFirstOrder(tail)
    ensures NewestFirstOrder([Entry(k, m[k])] + tail)
  {
    var rest := m - {k};
    var r := [Entry(k, m[k])] + tail;
    forall i, j | 0 <= i < j < |r| ensures r[i].memory.createdAt >= r[j].memory.createdAt {
      if i == 0 {
        var e := tail[j - 1];
        assert e.id in rest && e.id != k && m[e.id] == e.memory;
        assert Earlier(Entry(k, m[k]), Entry(e.id, m[e.id]));
      } else {
        assert r[i] == tail[i - 1] && r[j] == tail[j - 1];
      }
    }
  }

  // ---------------------------------------------------------------------------
  // The handlers

  /** A memory as the schema leaves it after a successful write. */
  predicate Stored(m: Memory)
  {
    MemoryModel.Valid(m.content) && Normalized(m.content)
  }

  predicate AllStored(records: map<Id, Memory>)
  {
    forall id :: id in records ==> Stored(records[id])
  }

  lemma StoreKeepsStored(records: map<Id, Memory>, id: Id, m: Memory)
    requires AllStored(records) && Stored(m)
    ensures AllStored(records[id := m])
  {
  }

  lemma RemoveKeepsStored(records: map<Id, Memory>, id: Id)
    requires AllStored(records)
    ensures AllStored(records - {id})
  {
  }

  class Controller {
    var records: map<Id, Memory>
    var blobs: set<string>
    var log: seq<Effect>

    /** Every stored memory passed the schema's setters and validators. */
    predicate Consistent()
      reads this
    {
      AllStored(records)
    }

    /** The store starts from memories that were all written through the
        schema. */
    constructor(initial: map<Id, Memory>, stored: set<string>)
      requires AllStored(initial)
      ensures records == initial && blobs == stored && log == []
      ensures Consistent()
    {
      records := initial;
      blobs := stored;
      log := [];
    }

    /** `deleteFile` of config/cloudinary.js: nothing for a falsy argument,
        otherwise one destroy of the extracted public id, whose failure is
        rethrown unchanged. */
    method DeleteFile(url: string, fault: Option<Thrown>) returns (thrown: Option<Thrown>)
      modifies this
      ensures records == old(records)
      ensures log == old(log) + DestroyCalls(url)
      ensures blobs == BlobsAfter(old(blobs), url, fault)
      ensures thrown == (if url == "" then None else fault)
    {
      if url == "" {
        return None;
      }
      var publicId := Cloudinary.PublicId(url);
      log := log + [Destroy(publicId)];
      if fault.Some? {
        return fault;
      }
      blobs := blobs - {publicId};
      return None;
    }

    /** `createMemory`. */
    method CreateMemory(body: Body, file: Option<Routes.UploadedFile>, id: Id, now: nat,
                        createFault: Option<Thrown>, destroyFault: Option<Thrown>) returns (reply: Reply)
      modifies this
      ensures old(Consistent()) ==> Consistent()
      ensures file.None? ==>
        reply == NoFileReply && records == old(records) && blobs == old(blobs) && log == old(log)
      ensures file.Some? && !(Truthy(body.title) && Truthy(body.description)) ==>
        && records == old(records)
        && log == old(log) + DestroyCalls(file.value.path)
        && blobs == BlobsAfter(old(blobs), file.value.path, destroyFault)
        && reply == (if file.value.path != "" && destroyFault.Some? then CreateCatch(destroyFault.value)
                     else MissingFieldsReply)
      ensures file.Some? && Truthy(body.title) && Truthy(body.description) ==>
        match CreateCall(old(records), id, CreateDoc(body, file.value), createFault)
        case Created(c) =>
          && records == old(records)[id := Memory(c, now, now)]
          && log == old(log) + [CreateRecord(id)]
          && blobs == old(blobs)
          && reply == Reply(201, true, Some(CreatedMessage), None, None, Single(Entry(id, Memory(c, now, now))))
        case Rejected(e) =>
          && records == old(records)
          && log == old(log) + [CreateRecord(id)] + DestroyCalls(file.value.path)
          && blobs == BlobsAfter(old(blobs), file.value.path, destroyFault)
          && reply == CreateFailure(e)
    {
      if file.None? {
        return NoFileReply;
      }
      var upload := file.value;
      if !Truthy(body.title) || !Truthy(body.description) {
        if upload.path != "" {
          // not inside a try: a failed delete reaches the outer catch
          var thrown := DeleteFile(upload.path, destroyFault);
          if thrown.Some? {
            return CreateCatch(thrown.value);
          }
        }
        return MissingFieldsReply;
      }
      var doc := CreateDoc(body, upload);
      var result := CreateCall(records, id, doc, createFault);
      if result.Created? {
        BuiltNormalized(doc);
      }
      reply := InsertOrCleanUp(result, upload.path, id, now, destroyFault);
    }

    /** The inner try of create: `Memory.create`, and on its failure one
        swallowed attempt to delete the upload before the error is answered
        (a duplicate key) or passed to the outer catch. */
    method InsertOrCleanUp(result: CreateResult, path: string, id: Id, now: nat,
                           destroyFault: Option<Thrown>) returns (reply: Reply)
      requires result.Created? ==> Stored(Memory(result.content, now, now))
      modifies this
      ensures old(Consistent()) ==> Consistent()
      ensures result.Created? ==>
        && records == old(records)[id := Memory(result.content, now, now)]
        && log == old(log) + [CreateRecord(id)]
        && blobs == old(blobs)
        && reply == Reply(201, true, Some(CreatedMessage), None, None,
                          Single(Entry(id, Memory(result.content, now, now))))
      ensures result.Rejected? ==>
        && records == old(records)
        && log == old(log) + [CreateRecord(id)] + DestroyCalls(path)
        && blobs == BlobsAfter(old(blobs), path, destroyFault)
        && reply == CreateFailure(result.thrown)
    {
      log := log + [CreateRecord(id)];
      if result.Created? {
        var memory := Memory(result.content, now, now);
        if Consistent() {
          StoreKeepsStored(records, id, memory);
        }
        records := records[id := memory];
        return Reply(201, true, Some(CreatedMessage), None, None, Single(Entry(id, memory)));
      }
      if path != "" {
        // the cleanup's own failure is swallowed
        var ignored := DeleteFile(path, destroyFault);
      }
      reply := CreateFailure(result.thrown);
    }

    /** `getMemories`: every memory, newest first, with their number. */
    method GetMemories(fault: Option<Thrown>) returns (reply: Reply)
      ensures fault.Some? ==> reply == ServerErrorReply
      ensures fault.None? ==>
        && reply.status == 200 && reply.success && reply.data.Listing?
        && Lists(reply.data.entries, records)
        && NewestFirstOrder(reply.data.entries)
        && reply.count == Some(|records|)
    {
      if fault.Some? {
        return ServerErrorReply;
      }
      var memories := NewestFirst(records);
      reply := Reply(200, true, None, None, Some(|memories|), Listing(memories));
    }

    /** `getMemory`. */
    method GetMemory(id: Option<Id>, fault: Option<Thrown>) returns (reply: Reply)
      ensures fault.Some? || id.None? ==> reply == ServerErrorReply
      ensures fault.None? && id.Some? && id.value !in records ==> reply == NotFoundReply
      ensures fault.None? && id.Some? && id.value in records ==>
        reply.status == 200 && reply.success && reply.data == Single(Entry(id.value, records[id.value]))
    {
      if fault.Some? || id.None? {
        return ServerErrorReply;
      }
      if id.value !in records {
        return NotFoundReply;
      }
      reply := Reply(200, true, None, None, None, Single(Entry(id.value, records[id.value])));
    }

    /** `updateMemory`. A replacement file reaches `path.join` and `fs`,
        which the controller never imports: the ReferenceError lands in the
        catch before `save`. */
    method UpdateMemory(id: Option<Id>, body: Body, file: Option<Routes.UploadedFile>, now: nat,
                        findFault: Option<Thrown>, saveFault: Option<Thrown>) returns (reply: Reply)
      modifies this
      ensures old(Consistent()) ==> Consistent()
      ensures blobs == old(blobs)
      ensures findFault.Some? || id.None? ==>
        reply == ServerErrorReply && records == old(records) && log == old(log)
      ensures findFault.None? && id.Some? && id.value !in old(records) ==>
        reply == NotFoundReply && records == old(records) && log == old(log)
      ensures findFault.None? && id.Some? && id.value in old(records) && (body.tags.Many? || file.Some?) ==>
        reply == ServerErrorReply && records == old(records) && log == old(log)
      ensures findFault.None? && id.Some? && id.value in old(records) && !body.tags.Many? && file.None? ==>
        var saved := SaveResult(old(records)[id.value], body, now, saveFault);
        && log == old(log) + [SaveRecord(id.value)]
        && (saved.None? ==> reply == ServerErrorReply && records == old(records))
        && (saved.Some? ==>
              && records == old(records)[id.value := saved.value]
              && reply == Reply(200, true, None, None, None, Single(Entry(id.value, saved.value))))
    {
      if findFault.Some? || id.None? {
        return ServerErrorReply;
      }
      var key := id.value;
      if key !in records {
        return NotFoundReply;
      }
      if body.tags.Many? {
        // the assignments reach `tags.split`, which an array does not have
        return ServerErrorReply;
      }
      if file.Some? {
        return ServerErrorReply;
      }
      var saved := SaveResult(records[key], body, now, saveFault);
      reply := Save(key, saved);
    }

    /** The write at the end of update, given what `save()` produced: the
        memory as saved, or None when it failed (a 500). */
    method Save(key: Id, saved: Option<Memory>) returns (reply: Reply)
      requires saved.Some? ==> Stored(saved.value)
      modifies this
      ensures old(Consistent()) ==> Consistent()
      ensures blobs == old(blobs)
      ensures log == old(log) + [SaveRecord(key)]
      ensures saved.None? ==> reply == ServerErrorReply && records == old(records)
      ensures saved.Some? ==>
        && records == old(records)[key := saved.value]
        && reply == Reply(200, true, None, None, None, Single(Entry(key, saved.value)))
    {
      log := log + [SaveRecord(key)];
      if saved.None? {
        return ServerErrorReply;
      }
      if Consistent() {
        StoreKeepsStored(records, key, saved.value);
      }
      records := records[key := saved.value];
      reply := Reply(200, true, None, None, None, Single(Entry(key, saved.value)));
    }

    /** `deleteMemory`: at most one blob delete, whose failure is swallowed,
        then the record delete. */
    method DeleteMemory(id: Option<Id>, findFault: Option<Thrown>, destroyFault: Option<Thrown>,
                        removeFault: Option<Thrown>) returns (reply: Reply)
      modifies this
      ensures old(Consistent()) ==> Consistent()
      ensures findFault.Some? || id.None? ==>
        reply == DeleteServerErrorReply && records == old(records) && blobs == old(blobs) && log == old(log)
      ensures findFault.None? && id.Some? && id.value !in old(records) ==>
        reply == DeleteNotFoundReply && records == old(records) && blobs == old(blobs) && log == old(log)
      ensures findFault.None? && id.Some? && id.value in old(records) ==>
        var m := old(records)[id.value];
        var target := DeleteTarget(StoredPublicId(m), m.content.mediaUrl);
        && log == old(log) + (if target.Some? then DestroyCalls(target.value) else []) + [DeleteRecord(id.value)]
        && blobs == (if target.Some? then BlobsAfter(old(blobs), target.value, destroyFault) else old(blobs))
        && records == (if removeFault.None? then old(records) - {id.value} else old(records))
        && reply == (if removeFault.None? then DeletedReply else DeleteServerErrorReply)
    {
      if findFault.Some? || id.None? {
        return DeleteServerErrorReply;
      }
      var key := id.value;
      if key !in records {
        return DeleteNotFoundReply;
      }
      var memory := records[key];
      var target := DeleteTarget(StoredPublicId(memory), memory.content.mediaUrl);
      if target.Some? {
        var ignored := DeleteFile(target.value, destroyFault);
      }
      log := log + [DeleteRecord(key)];
      if removeFault.Some? {
        return DeleteServerErrorReply;
      }
      if Consistent() {
        RemoveKeepsStored(records, key);
      }
      records := records - {key};
      reply := DeletedReply;
    }
  }

  /** Delete always takes the media-URL branch: no stored memory carries a
      public id, and every valid one has a media URL. */
  lemma DeleteUsesMediaUrl(m: Memory)
    requires MemoryModel.Valid(m.content)
    ensures DeleteTarget(StoredPublicId(m), m.content.mediaUrl) == Some(m.content.mediaUrl)
  {
  }
}
