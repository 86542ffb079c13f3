/** Parsed JSON values and the coercions the checkpoint reducer applies to them. */
module Json {
  import opened Sequences
  import opened Text

  /** A number carries its decimal rendering and whether it is falsy (zero or NaN). */
  datatype Value =
    | Undefined
    | Null
    | Boolean(flag: bool)
    | Number(falsy: bool, digits: string)
    | Str(chars: string)
    | List(items: seq<Value>)
    | Record(fields: map<string, Value>)

  predicate Truthy(v: Value) {
    match v
    case Undefined => false
    case Null => false
    case Boolean(flag) => flag
    case Number(falsy, _) => !falsy
    case Str(chars) => chars != ""
    case List(_) => true
    case Record(_) => true
  }

  /** The value as text, the way the language converts it. */
  function Render(v: Value): string {
    match v
    case Undefined => "undefined"
    case Null => "null"
    case Boolean(flag) => if flag then "true" else "false"
    case Number(_, digits) => digits
    case Str(chars) => chars
    case List(items) => RenderItems(items)
    case Record(_) => "[object Object]"
  }

  /** The elements joined by commas; undefined and null render as nothing. */
  function RenderItems(items: seq<Value>): string {
    if items == [] then ""
    else
      var head := if items[0].Undefined? || items[0].Null? then "" else Render(items[0]);
      if |items| == 1 then head else head + "," + RenderItems(items[1..])
  }

  /** The texts of the elements; undefined and null have none. */
  function Texts(items: seq<Value>): seq<string> {
    seq(|items|, i requires 0 <= i < |items| =>
      if items[i].Undefined? || items[i].Null? then "" else Render(items[i]))
  }

  /** A list is rendered as the texts of its elements, joined by commas. */
  lemma {:induction false} RenderItemsExact(items: seq<Value>)
    ensures Render(List(items)) == Join(Texts(items), ",")
  {
    if |items| > 1 {
      var later := items[1..];
      RenderItemsExact(later);
      assert Texts(items)[1..] == Texts(later);
    }
  }

  /** The trimmed text of a value; falsy ones count as empty. */
  function TextOf(v: Value): string {
    Trim(if Truthy(v) then Render(v) else "")
  }

  /** The trimmed text of a string value; every other value counts as empty. */
  function StringOf(v: Value): string {
    if v.Str? then Trim(v.chars) else ""
  }

  /** The field of a record; every other value has none. */
  function Field(v: Value, key: string): Value {
    if v.Record? && key in v.fields then v.fields[key] else Undefined
  }

  function Items(v: Value): seq<Value> {
    if v.List? then v.items else []
  }

  function NonEmptyTrimmed(s: string): seq<string> {
    if Trim(s) == "" then [] else [Trim(s)]
  }

  function TrimScan(): (nat, string) -> seq<string> {
    (_, s) => NonEmptyTrimmed(s)
  }

  /** `uniqueStrings`: trimmed, non-empty, first occurrence kept. */
  function UniqueStrings(values: seq<string>): seq<string> {
    Dedupe(Collect(values, TrimScan()))
  }

  function StringScan(): (nat, Value) -> seq<string> {
    (_, v) => if StringOf(v) == "" then [] else [StringOf(v)]
  }

  /** The trimmed non-empty strings of a list, other elements dropped. */
  function StringItems(v: Value): seq<string> {
    Collect(Items(v), StringScan())
  }

  lemma StringItemsMember(v: Value, x: string)
    ensures x in StringItems(v) <==> exists i :: 0 <= i < |Items(v)| && StringOf(Items(v)[i]) == x && x != ""
  {
    CollectMembers(Items(v), StringScan(), x);
    if i: nat :| i < |Items(v)| && x in StringScan()(i, Items(v)[i]) {
      assert StringOf(Items(v)[i]) == x;
    }
    if i :| 0 <= i < |Items(v)| && StringOf(Items(v)[i]) == x && x != "" {
      assert x in StringScan()(i, Items(v)[i]);
    }
  }

  lemma StringItemsTrimmed(v: Value)
    ensures forall s | s in StringItems(v) :: Trim(s) == s && s != ""
  {
    forall s | s in StringItems(v) ensures Trim(s) == s && s != "" {
      StringItemsMember(v, s);
      var i :| 0 <= i < |Items(v)| && StringOf(Items(v)[i]) == s && s != "";
      TrimIdempotent(Items(v)[i].chars);
    }
  }

  lemma StringItemsEmpty(v: Value)
    ensures StringItems(v) != [] <==> exists x | x in Items(v) :: StringOf(x) != ""
  {
    var items := Items(v);
    CollectEmpty(items, StringScan());
    if StringItems(v) == [] {
      forall x | x in items ensures StringOf(x) == "" {
        var i: nat :| i < |items| && items[i] == x;
        assert StringScan()(i, items[i]) == [];
      }
    } else {
      var i: nat :| i < |items| && StringScan()(i, items[i]) != [];
      assert items[i] in items && StringOf(items[i]) != "";
    }
  }

  /** Unique strings of an already trimmed list have the same elements. */
  lemma UniqueStringsOfTrimmed(values: seq<string>)
    requires forall s | s in values :: Trim(s) == s && s != ""
    ensures ToSet(UniqueStrings(values)) == ToSet(values)
  {
    forall x ensures x in Collect(values, TrimScan()) <==> x in values {
      CollectMembers(values, TrimScan(), x);
      if x in values {
        var i: nat :| i < |values| && values[i] == x;
        assert x in TrimScan()(i, values[i]);
      }
    }
  }
}
