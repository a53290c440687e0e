/**
 * The JSON tree the validator reads (Jackson's `JsonNode`, seen through the
 * `JsonHolder` interface): the node predicates, `findValue`, `textValue` and
 * `asText`, and the decimal text of an integral number that `asText` produces.
 */
module Json {
  import opened Wrappers

  /** A JSON value. A non-integral number keeps only its literal text: the model does no float arithmetic. */
  datatype Json =
    | JNull
    | JBool(b: bool)
    | JInt(n: int)
    | JFrac(literal: string)
    | JStr(s: string)
    | JArr(items: seq<Json>)
    | JObj(fields: seq<(string, Json)>)

  /** The type argument given to a deserialization (Jackson's `TypeReference`). */
  datatype TypeRef =
    | AnyType                 // TypeReference<Any>
    | MapType                 // TypeReference<Map<String, Any>>
    | ErrorFieldType          // TypeReference<ErrorField<Any>>
    | Declared(name: string)  // the type a handler declares for its params

  /** The first field of `fields` named `name`. */
  function Lookup(fields: seq<(string, Json)>, name: string): (r: Option<Json>)
    ensures r.Some? <==> exists i :: 0 <= i < |fields| && fields[i].0 == name
    ensures r.Some? ==> exists i :: 0 <= i < |fields| && fields[i] == (name, r.value)
                                    && forall j :: 0 <= j < i ==> fields[j].0 != name
  {
    if |fields| == 0 then None
    else if fields[0].0 == name then Some(fields[0].1)
    else
      var r := Lookup(fields[1..], name);
      assert forall i :: 0 < i < |fields| ==> fields[i] == fields[1..][i - 1];
      r
  }

  /** The field found is the first one carrying the name. */
  lemma {:induction false} LookupFirst(fields: seq<(string, Json)>, name: string, i: nat)
    requires i < |fields| && fields[i].0 == name
    requires forall j :: 0 <= j < i ==> fields[j].0 != name
    ensures Lookup(fields, name) == Some(fields[i].1)
  {
    if i > 0 {
      LookupFirst(fields[1..], name, i - 1);
    }
  }

  /**
   * With distinct field names, as in every tree Jackson reads, the field
   * carrying the name is found wherever it stands, so first-match and
   * last-wins lookups agree.
   */
  lemma LookupDistinct(fields: seq<(string, Json)>, name: string, i: nat)
    requires i < |fields| && fields[i].0 == name
    requires forall j, k :: 0 <= j < k < |fields| ==> fields[j].0 != fields[k].0
    ensures Lookup(fields, name) == Some(fields[i].1)
  {
    LookupFirst(fields, name, i);
  }

  /** `findValue(name)`: a field of an object node; nothing on any other node. */
  function FindValue(node: Json, name: string): (r: Option<Json>)
    ensures r.Some? ==> node.JObj?
    ensures node.JObj? ==> r == Lookup(node.fields, name)
  {
    if node.JObj? then Lookup(node.fields, name) else None
  }

  /** `textValue()`: the string of a textual node, null for every other node. */
  function TextValue(node: Json): (r: Option<string>)
    ensures r.Some? <==> node.JStr?
    ensures node.JStr? ==> r.value == node.s
  {
    if node.JStr? then Some(node.s) else None
  }

  /** `asText()`: the text of a scalar node; containers give the empty string. */
  function AsText(node: Json): string {
    match node
    case JNull => "null"
    case JBool(b) => if b then "true" else "false"
    case JInt(n) => IntText(n)
    case JFrac(lit) => lit
    case JStr(s) => s
    case JArr(_) => ""
    case JObj(_) => ""
  }

  predicate IsDigit(c: char) { '0' <= c <= '9' }

  predicate AllDigits(s: string) { forall i :: 0 <= i < |s| ==> IsDigit(s[i]) }

  function DigitChar(d: nat): (c: char)
    requires d < 10
    ensures IsDigit(c) && c as int - '0' as int == d
  {
    (d + '0' as int) as char
  }

  /** The decimal digits of `n`, most significant first, without leading zeros. */
  function NatText(n: nat): (r: string)
    ensures |r| > 0 && AllDigits(r)
    ensures (r[0] == '0') <==> (n == 0)
    decreases n
  {
    if n < 10 then [DigitChar(n)] else NatText(n / 10) + [DigitChar(n % 10)]
  }

  /** The decimal text of an integer, with a leading '-' when it is negative. */
  function IntText(n: int): string {
    if n < 0 then "-" + NatText(-n) else NatText(n)
  }

  /** The value of a non-empty string of decimal digits. */
  function ParseNat(s: string): nat
    requires |s| > 0 && AllDigits(s)
    decreases |s|
  {
    var d := s[|s| - 1] as int - '0' as int;
    if |s| == 1 then d else ParseNat(s[..|s| - 1]) * 10 + d
  }

  /** Reads back the text `IntText` writes; nothing for any other text. */
  function ParseInt(s: string): Option<int> {
    if |s| > 1 && s[0] == '-' && AllDigits(s[1..]) then Some(-(ParseNat(s[1..]) as int))
    else if |s| > 0 && AllDigits(s) then Some(ParseNat(s))
    else None
  }

  lemma {:induction false} NatTextRoundTrip(n: nat)
    ensures ParseNat(NatText(n)) == n
    decreases n
  {
    if n >= 10 {
      var s := NatText(n);
      assert s[..|s| - 1] == NatText(n / 10);
      NatTextRoundTrip(n / 10);
    }
  }

  /** The id text of an integral id determines the id. */
  lemma IntTextRoundTrip(n: int)
    ensures ParseInt(IntText(n)) == Some(n)
  {
    var s := IntText(n);
    if n < 0 {
      var digits := NatText(-n);
      assert s == "-" + digits && s[0] == '-' && s[1..] == digits;
      assert AllDigits(s[1..]) && |s| > 1;
      NatTextRoundTrip(-n);
      assert ParseInt(s) == Some(-(ParseNat(digits) as int));
    } else {
      assert s == NatText(n) && IsDigit(s[0]) && s[0] != '-';
      NatTextRoundTrip(n);
      assert ParseInt(s) == Some(ParseNat(s));
    }
  }

  /** Two integral ids share an id text only when they are the same number. */
  lemma IntTextInjective(a: int, b: int)
    ensures IntText(a) == IntText(b) <==> a == b
  {
    IntTextRoundTrip(a);
    IntTextRoundTrip(b);
  }
}
