/** The client's `Note` (SecureRequest/Models/Note.swift) and its JSON
    wire form under `JSONDecoder` and the synthesised `Encodable`. */
module ClientNote {
  import opened Wrappers
  import opened Json

  /** `struct Note`. The memberwise `init` is this constructor: it stores
      each argument unchanged in the field of the same name. */
  datatype Note = Note(
    id: int,
    userId: Option<int>,
    title: string,
    content: string,
    createdAt: Option<string>,
    updatedAt: Option<string>)

  /** The six stored properties, in declaration order. */
  datatype Field = Id | UserId | Title | Content | CreatedAt | UpdatedAt

  /** `CodingKeys`: the JSON key of each property. */
  function WireKey(f: Field): (key: string)
  {
    match f
    case Id => "id"
    case UserId => "user_id"
    case Title => "title"
    case Content => "content"
    case CreatedAt => "created_at"
    case UpdatedAt => "updated_at"
  }

  /** No two properties share a key, and the six keys are exactly the
      server's column names. */
  lemma WireKeysDistinct()
    ensures forall f, g :: WireKey(f) == WireKey(g) ==> f == g
    ensures (set f: Field :: WireKey(f)) == {"id", "user_id", "title", "content", "created_at", "updated_at"}
  {
    var keys := set f: Field :: WireKey(f);
    assert WireKey(Id) in keys && WireKey(UserId) in keys && WireKey(Title) in keys;
    assert WireKey(Content) in keys && WireKey(CreatedAt) in keys && WireKey(UpdatedAt) in keys;
  }

  /** Swift's `Int` on the 64-bit platforms the app runs on. */
  const Int64Min: int := -0x8000_0000_0000_0000
  const Int64Max: int := 0x7FFF_FFFF_FFFF_FFFF

  predicate FitsInt(n: int)
  {
    Int64Min <= n <= Int64Max
  }

  /** The `DecodingError` cases `init(from:)` can throw. */
  datatype DecodeError =
    | NotAnObject            // `container(keyedBy:)` on a non-object
    | KeyNotFound(key: string)
    | ValueNotFound(key: string) // `null` where a value is required
    | TypeMismatch(key: string)
    | DataCorrupted(key: string) // a number that does not fit in `Int`

  /** `decode(Int.self, forKey:)`. */
  function RequiredInt(fields: map<string, Json>, key: string): (r: Result<int, DecodeError>)
    ensures r.Ok? <==> key in fields && fields[key].JNum? && FitsInt(fields[key].n)
    ensures r.Ok? ==> r.value == fields[key].n
    ensures r == Err(KeyNotFound(key)) <==> key !in fields
    ensures r == Err(ValueNotFound(key)) <==> key in fields && fields[key].JNull?
  {
    if key !in fields then Err(KeyNotFound(key))
    else match fields[key]
      case JNull => Err(ValueNotFound(key))
      case JNum(n) => if FitsInt(n) then Ok(n) else Err(DataCorrupted(key))
      case _ => Err(TypeMismatch(key))
  }

  /** `decode(String.self, forKey:)`. */
  function RequiredString(fields: map<string, Json>, key: string): (r: Result<string, DecodeError>)
    ensures r.Ok? <==> key in fields && fields[key].JStr?
    ensures r.Ok? ==> r.value == fields[key].s
    ensures r == Err(KeyNotFound(key)) <==> key !in fields
    ensures r == Err(ValueNotFound(key)) <==> key in fields && fields[key].JNull?
  {
    if key !in fields then Err(KeyNotFound(key))
    else match fields[key]
      case JNull => Err(ValueNotFound(key))
      case JStr(s) => Ok(s)
      case _ => Err(TypeMismatch(key))
  }

  /** `decodeIfPresent(Int.self, forKey:)`: a missing key and `null` both
      give `nil`; a value of the wrong kind still fails. */
  function OptionalInt(fields: map<string, Json>, key: string): (r: Result<Option<int>, DecodeError>)
    ensures key !in fields || fields[key].JNull? ==> r == Ok(None)
    ensures r.Ok? && r.value.Some? ==> key in fields && fields[key] == JNum(r.value.value)
    ensures r.Err? <==> key in fields && !fields[key].JNull? && !(fields[key].JNum? && FitsInt(fields[key].n))
  {
    if key !in fields || fields[key].JNull? then Ok(None)
    else match RequiredInt(fields, key)
      case Ok(n) => Ok(Some(n))
      case Err(e) => Err(e)
  }

  /** `decodeIfPresent(String.self, forKey:)`. */
  function OptionalString(fields: map<string, Json>, key: string): (r: Result<Option<string>, DecodeError>)
    ensures key !in fields || fields[key].JNull? ==> r == Ok(None)
    ensures r.Ok? && r.value.Some? ==> key in fields && fields[key] == JStr(r.value.value)
    ensures r.Err? <==> key in fields && !fields[key].JNull? && !fields[key].JStr?
  {
    if key !in fields || fields[key].JNull? then Ok(None)
    else match RequiredString(fields, key)
      case Ok(s) => Ok(Some(s))
      case Err(e) => Err(e)
  }

  /** `init(from:)`: the properties are read in declaration order and the
      first failure is thrown. `id`, `title` and `content` are required;
      `user_id`, `created_at` and `updated_at` may be missing or `null`. */
  function DecodeNote(j: Json): (r: Result<Note, DecodeError>)
    ensures r.Ok? <==>
      && j.JObj?
      && RequiredInt(j.fields, "id").Ok? && OptionalInt(j.fields, "user_id").Ok?
      && RequiredString(j.fields, "title").Ok? && RequiredString(j.fields, "content").Ok?
      && OptionalString(j.fields, "created_at").Ok? && OptionalString(j.fields, "updated_at").Ok?
    ensures r.Ok? ==>
      && r.value.id == j.fields["id"].n
      && r.value.title == j.fields["title"].s
      && r.value.content == j.fields["content"].s
      && r.value.userId == OptionalInt(j.fields, "user_id").value
      && r.value.createdAt == OptionalString(j.fields, "created_at").value
      && r.value.updatedAt == OptionalString(j.fields, "updated_at").value
  {
    if !j.JObj? then Err(NotAnObject)
    else
      var f := j.fields;
      match (RequiredInt(f, "id"), OptionalInt(f, "user_id"), RequiredString(f, "title"))
      case (Err(e), _, _) => Err(e)
      case (_, Err(e), _) => Err(e)
      case (_, _, Err(e)) => Err(e)
      case (Ok(id), Ok(userId), Ok(title)) =>
        match (RequiredString(f, "content"), OptionalString(f, "created_at"), OptionalString(f, "updated_at"))
        case (Err(e), _, _) => Err(e)
        case (_, Err(e), _) => Err(e)
        case (_, _, Err(e)) => Err(e)
        case (Ok(content), Ok(createdAt), Ok(updatedAt)) =>
          Ok(Note(id, userId, title, content, createdAt, updatedAt))
  }

  /** Any of the three required keys missing fails the decode, naming the
      first missing one in declaration order. */
  lemma MissingRequiredKeyFails(j: Json)
    requires j.JObj?
    ensures "id" !in j.fields ==> DecodeNote(j) == Err(KeyNotFound("id"))
    ensures "title" !in j.fields || "content" !in j.fields ==> DecodeNote(j).Err?
  {
  }

  /** The three optional keys may all be missing. */
  lemma MissingOptionalKeysDecodeToNil(id: int, title: string, content: string)
    requires FitsInt(id)
    ensures DecodeNote(JObj(map["id" := JNum(id), "title" := JStr(title), "content" := JStr(content)]))
         == Ok(Note(id, None, title, content, None, None))
  {
  }

  // ---- The synthesised `encode(to:)`: `nil` properties are left out. ----

  /** The optional keys differ from each other and from the required ones. */
  lemma OptionalKeysApart()
    ensures "user_id" != "id" && "user_id" != "title" && "user_id" != "content"
    ensures "created_at" != "id" && "created_at" != "title" && "created_at" != "content" && "created_at" != "user_id"
    ensures "updated_at" != "id" && "updated_at" != "title" && "updated_at" != "content"
    ensures "updated_at" != "user_id" && "updated_at" != "created_at"
  {
    assert "created_at"[1] != "updated_at"[1];
  }

  /** `encodeIfPresent`: adds the key only for a non-`nil` value. */
  function EncodeIfPresent(fields: map<string, Json>, key: string, v: Option<Json>): (r: map<string, Json>)
    ensures v.None? ==> r == fields
    ensures v.Some? ==> r == fields[key := v.value]
  {
    if v.Some? then fields[key := v.value] else fields
  }

  function EncodeNote(n: Note): (j: Json)
    ensures j.JObj?
    ensures j.fields.Keys <= {"id", "user_id", "title", "content", "created_at", "updated_at"}
    ensures Get(j, "id") == Some(JNum(n.id))
    ensures Get(j, "title") == Some(JStr(n.title)) && Get(j, "content") == Some(JStr(n.content))
  {
    var required := map["id" := JNum(n.id), "title" := JStr(n.title), "content" := JStr(n.content)];
    var withUser := EncodeIfPresent(required, "user_id", if n.userId.Some? then Some(JNum(n.userId.value)) else None);
    var withCreated := EncodeIfPresent(withUser, "created_at", if n.createdAt.Some? then Some(JStr(n.createdAt.value)) else None);
    JObj(EncodeIfPresent(withCreated, "updated_at", if n.updatedAt.Some? then Some(JStr(n.updatedAt.value)) else None))
  }

  /** A `nil` property leaves its key out; any other is written under its
      key. */
  lemma EncodeNoteOptional(n: Note)
    ensures var j := EncodeNote(n);
      && Get(j, "user_id") == (if n.userId.Some? then Some(JNum(n.userId.value)) else None)
      && Get(j, "created_at") == (if n.createdAt.Some? then Some(JStr(n.createdAt.value)) else None)
      && Get(j, "updated_at") == (if n.updatedAt.Some? then Some(JStr(n.updatedAt.value)) else None)
  {
    OptionalKeysApart();
  }

  /** A note the app encodes decodes back to itself, as long as its
      integers fit in `Int` (which every `Note` in the app satisfies). */
  lemma DecodeEncodeNote(n: Note)
    requires FitsInt(n.id) && (n.userId.Some? ==> FitsInt(n.userId.value))
    ensures DecodeNote(EncodeNote(n)) == Ok(n)
  {
    var j := EncodeNote(n);
    EncodeNoteOptional(n);
    assert OptionalInt(j.fields, "user_id") == Ok(n.userId);
    assert OptionalString(j.fields, "created_at") == Ok(n.createdAt);
    assert OptionalString(j.fields, "updated_at") == Ok(n.updatedAt);
  }

  /** Conversely a decoded note, encoded again, keeps every key the wire
      object carried with a non-null value and agrees with it there. */
  lemma EncodeDecodedNote(j: Json)
    requires DecodeNote(j).Ok?
    ensures var e := EncodeNote(DecodeNote(j).value);
      forall f: Field | WireKey(f) in j.fields && !j.fields[WireKey(f)].JNull? ::
        WireKey(f) in e.fields && e.fields[WireKey(f)] == j.fields[WireKey(f)]
  {
    var n := DecodeNote(j).value;
    var e := EncodeNote(n);
    forall f: Field | WireKey(f) in j.fields && !j.fields[WireKey(f)].JNull?
      ensures WireKey(f) in e.fields && e.fields[WireKey(f)] == j.fields[WireKey(f)]
    {
      match f {
        case Id =>
        case UserId => assert n.userId.Some?;
        case Title =>
        case Content =>
        case CreatedAt => assert n.createdAt.Some?;
        case UpdatedAt => assert n.updatedAt.Some?;
      }
    }
  }
}
