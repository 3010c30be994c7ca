/** The column converters of the relational mapping: for each, the value a
    Python attribute is stored as (`process_bind_param`) and the value a
    stored column is read back as (`process_result_value`). A stored `NULL`
    is `None`. The JSON text that `json.dumps` writes is identified with the
    JSON value it encodes, so `json.loads(json.dumps(v)) == v` for the
    values these columns hold. */
module Orm {
  import opened Common
  import opened Animals

  /** A JSON value, as Python holds it after `json.loads`: `None`, a
      boolean, an integer, a string or a list. */
  datatype Json = JNull | JBool(b: bool) | JInt(i: int) | JStr(s: string) | JList(items: seq<Json>)

  /** The error `tuple(data)` raises on a JSON value that is not iterable. */
  datatype OrmError = NotIterable

  /** A list of strings as JSON. */
  function StrList(xs: seq<string>): (j: seq<Json>)
    ensures |j| == |xs| && forall k :: 0 <= k < |xs| ==> j[k] == JStr(xs[k])
  {
    if xs == [] then [] else [JStr(xs[0])] + StrList(xs[1..])
  }

  /** A list of integers as JSON. */
  function IntList(xs: seq<int>): (j: seq<Json>)
    ensures |j| == |xs| && forall k :: 0 <= k < |xs| ==> j[k] == JInt(xs[k])
  {
    if xs == [] then [] else [JInt(xs[0])] + IntList(xs[1..])
  }

  /** `TagsType.process_bind_param`: `None` stays `NULL`, anything else is
      stored as its JSON text. */
  function TagsBind(v: Json): (r: Option<Json>)
    ensures r.None? <==> v == JNull
    ensures r.Some? ==> r.value == v
  {
    if v == JNull then None else Some(v)
  }

  /** `TagsType.process_result_value`: `NULL` reads as the empty list. */
  function TagsResult(stored: Option<Json>): (r: Json)
    ensures stored.None? ==> r == JList([])
    ensures stored.Some? ==> r == stored.value
  {
    if stored.None? then JList([]) else stored.value
  }

  /** A tag list, and any value other than `None`, survives a store and a
      read; `None` reads back as `[]`, so it does not survive. */
  lemma TagsRoundTrip(tags: seq<string>, v: Json)
    ensures TagsResult(TagsBind(JList(StrList(tags)))) == JList(StrList(tags))
    ensures v != JNull ==> TagsResult(TagsBind(v)) == v
    ensures TagsBind(JNull) == None && TagsResult(TagsBind(JNull)) == JList([])
  {
  }

  /** `ListType.process_bind_param`, the same rule as for tags. */
  function ListBind(v: Json): (r: Option<Json>)
    ensures r.None? <==> v == JNull
    ensures r.Some? ==> r.value == v
  {
    if v == JNull then None else Some(v)
  }

  /** `ListType.process_result_value`: `NULL` reads as the empty list. */
  function ListResult(stored: Option<Json>): (r: Json)
    ensures stored.None? ==> r == JList([])
    ensures stored.Some? ==> r == stored.value
  {
    if stored.None? then JList([]) else stored.value
  }

  /** A list of ids survives a store and a read; `None` becomes `[]`. */
  lemma ListRoundTrip(ids: seq<int>)
    ensures ListResult(ListBind(JList(IntList(ids)))) == JList(IntList(ids))
    ensures ListResult(ListBind(JNull)) == JList([]) && ListResult(ListBind(JNull)) != JNull
  {
  }

  /** `SizeType.process_bind_param` on a size held as a sequence of
      integers: `None` stays `NULL`, an empty (falsy) size is stored as
      `[0, 0]`, and any other size as the list of its numbers. */
  function SizeBind(size: Option<seq<int>>): (r: Option<Json>)
    ensures size.None? <==> r.None?
    ensures size.Some? && size.value == [] ==> r == Some(JList([JInt(0), JInt(0)]))
    ensures size.Some? && size.value != [] ==> r == Some(JList(IntList(size.value)))
  {
    if size.None? then None
    else if size.value == [] then Some(JList([JInt(0), JInt(0)]))
    else Some(JList(IntList(size.value)))
  }

  /** `SizeType.process_result_value`: `NULL` reads as `(0, 0)`; a stored
      list reads as the tuple of its items, a string as the tuple of its
      characters, and any other JSON value raises `TypeError`. */
  function SizeResult(stored: Option<Json>): (r: Result<seq<Json>, OrmError>)
    ensures stored.None? ==> r == Ok([JInt(0), JInt(0)])
    ensures stored.Some? && stored.value.JList? ==> r == Ok(stored.value.items)
    ensures r.Err? <==> stored.Some? && (stored.value.JNull? || stored.value.JBool? || stored.value.JInt?)
  {
    if stored.None? then Ok([JInt(0), JInt(0)])
    else match stored.value
      case JList(items) => Ok(items)
      case JStr(s) => Ok(seq(|s|, k requires 0 <= k < |s| => JStr([s[k]])))
      case _ => Err(NotIterable)
  }

  /** A size `(w, h)` survives a store and a read; an empty size and a
      missing one both read back as `(0, 0)`. */
  lemma SizeRoundTrip(w: int, h: int)
    ensures SizeResult(SizeBind(Some([w, h]))) == Ok([JInt(w), JInt(h)])
    ensures SizeResult(SizeBind(Some([]))) == Ok([JInt(0), JInt(0)])
    ensures SizeResult(SizeBind(None)) == Ok([JInt(0), JInt(0)])
  {
    var j := IntList([w, h]);
    assert j == [JInt(w), JInt(h)];
  }

  /** Any non-empty size survives a store and a read, item by item. */
  lemma SizeListRoundTrip(size: seq<int>)
    requires size != []
    ensures SizeResult(SizeBind(Some(size))).Ok?
    ensures |SizeResult(SizeBind(Some(size))).value| == |size|
    ensures forall k :: 0 <= k < |size| ==> SizeResult(SizeBind(Some(size))).value[k] == JInt(size[k])
  {
  }

  /** The value handed to `AnimalTypeType.process_bind_param`: `None`, an
      enumeration member, or some other value, such as a raw string, that is
      passed through unchanged. */
  datatype AnimalArg = NoAnimal | Member(a: AnimalType) | Raw(s: string)

  /** `AnimalTypeType.process_bind_param`: a member is stored as its value,
      a raw string as itself. */
  function AnimalBind(v: AnimalArg): (r: Option<string>)
    ensures r.None? <==> v.NoAnimal?
    ensures v.Member? ==> r == Some(Value(v.a))
    ensures v.Raw? ==> r == Some(v.s)
  {
    match v
    case NoAnimal => None
    case Member(a) => Some(Value(a))
    case Raw(s) => Some(s)
  }

  /** `AnimalTypeType.process_result_value`: `NULL` reads as `None`, a
      stored value as the member with that value; `Err` stands for the
      `ValueError` of a string that is no member's value. */
  function AnimalResult(stored: Option<string>): (r: Result<Option<AnimalType>, string>)
    ensures stored.None? ==> r == Ok(None)
    ensures r.Ok? && r.value.Some? ==> stored == Some(Value(r.value.value))
    ensures r.Err? ==> stored.Some? && r.error == stored.value
  {
    if stored.None? then Ok(None)
    else match FromValue(stored.value)
      case None => Err(stored.value)
      case Some(a) => Ok(Some(a))
  }

  /** A member survives a store and a read; so does a raw string that is a
      member's value, which reads back as that member; any other raw string
      is stored, but reading it raises. */
  lemma AnimalRoundTrip(a: AnimalType, s: string)
    ensures AnimalResult(AnimalBind(Member(a))) == Ok(Some(a))
    ensures AnimalResult(AnimalBind(NoAnimal)) == Ok(None)
    ensures AnimalResult(AnimalBind(Raw(Value(a)))) == Ok(Some(a))
    ensures (forall b: AnimalType :: Value(b) != s) ==> AnimalResult(AnimalBind(Raw(s))).Err?
  {
    FromValueOfValue(a);
    FromValueTotalOnValues(s);
  }

  /** `PathType.process_bind_param`: a path is stored as `str(path)`. */
  function PathBind(p: Option<Path>): (r: Option<string>)
    ensures r.None? <==> p.None?
    ensures p.Some? ==> r == Some(p.value.text)
  {
    if p.None? then None else Some(p.value.text)
  }

  /** `PathType.process_result_value`: a stored string reads as `Path(s)`. */
  function PathResult(stored: Option<string>): (r: Option<Path>)
    ensures r.None? <==> stored.None?
    ensures stored.Some? && stored.value != "" ==> r == Some(Path(stored.value))
  {
    if stored.None? then None else Some(MakePath(stored.value))
  }

  /** A path built by `Path(...)` survives a store and a read, and `None`
      stays `None` both ways. The empty string is the one stored value that
      does not come back: it reads as ".". */
  lemma PathRoundTrip(s: string)
    ensures PathResult(PathBind(Some(MakePath(s)))) == Some(MakePath(s))
    ensures PathBind(None) == None && PathResult(None) == None
    ensures PathBind(PathResult(Some(s))) == Some(if s == "" then "." else s)
  {
  }

  /** `DateTimeType.process_bind_param`: the ISO text of the time. */
  function DateTimeBind(t: Option<Timestamp>): (r: Option<string>)
    ensures r.None? <==> t.None?
    ensures t.Some? ==> r == Some(t.value.text)
  {
    if t.None? then None else Some(t.value.text)
  }

  /** `DateTimeType.process_result_value`: the time the ISO text names. */
  function DateTimeResult(stored: Option<string>): (r: Option<Timestamp>)
    ensures r.None? <==> stored.None?
    ensures stored.Some? ==> r == Some(Timestamp(stored.value))
  {
    if stored.None? then None else Some(Timestamp(stored.value))
  }

  /** A time survives a store and a read, and `None` maps to `None` both
      ways. */
  lemma DateTimeRoundTrip(t: Option<Timestamp>)
    ensures DateTimeResult(DateTimeBind(t)) == t
    ensures DateTimeBind(None) == None && DateTimeResult(None) == None
  {
  }
}
