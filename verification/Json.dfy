/**
 JSON values as the store sees them: objects keep the order of their members and may repeat a key,
 array items have no key, and `valueint` is the number cut to a 32-bit int.
 */
module Json {
  import opened Wrappers

  const INT_MAX := 0x7fff_ffff
  const INT_MIN := -0x8000_0000

  datatype Json =
    | Null
    | Bool(b: bool)
    | Number(n: real)
    | String(s: string)
    | Array(items: seq<Json>)
    | Object(members: seq<Member>)

  datatype Member = Member(key: string, value: Json)

  /** The number of children; scalars have none. */
  function Size(j: Json): nat {
    match j
    case Array(items) => |items|
    case Object(members) => |members|
    case _ => 0
  }

  /** The key of child `i`, which array items lack. */
  function Key(j: Json, i: nat): Option<string>
    requires i < Size(j)
  {
    if j.Object? then Some(j.members[i].key) else None
  }

  function Item(j: Json, i: nat): Json
    requires i < Size(j)
  {
    if j.Object? then j.members[i].value else j.items[i]
  }

  /** Truncation towards zero, saturating at the ends of the int range. */
  function ValueInt(r: real): (v: int)
    ensures INT_MIN <= v <= INT_MAX
    ensures v as real == r || (if 0.0 <= r then v as real <= r else r <= v as real)
  {
    if INT_MAX as real <= r then INT_MAX
    else if r <= INT_MIN as real then INT_MIN
    else if 0.0 <= r then r.Floor
    else -((-r).Floor)
  }

  /** Within the int range the fraction goes; outside, the nearest end stands for the number. */
  lemma ValueIntTruncates(r: real)
    ensures r > INT_MAX as real ==> ValueInt(r) == INT_MAX
    ensures r < INT_MIN as real ==> ValueInt(r) == INT_MIN
    ensures 0.0 <= r <= INT_MAX as real ==> ValueInt(r) as real <= r < (ValueInt(r) + 1) as real
    ensures INT_MIN as real <= r <= 0.0 ==> (ValueInt(r) - 1) as real < r <= ValueInt(r) as real
  {
  }

  lemma IntsStay(v: int)
    requires INT_MIN <= v <= INT_MAX
    ensures ValueInt(v as real) == v
  {
    ValueIntTruncates(v as real);
  }

  /** Cutting to an int a second time changes nothing. */
  lemma ValueIntIdempotent(r: real)
    ensures ValueInt(ValueInt(r) as real) == ValueInt(r)
  {
    var v := ValueInt(r);
    assert (v as real).Floor == v && (-(v as real)).Floor == -v;
  }

  /** ASCII lower case, the folding applied to each byte of a key by the case-insensitive lookup. */
  function LowerChar(c: char): char {
    if 'A' <= c <= 'Z' then c - 'A' + 'a' else c
  }

  function Fold(s: string): string {
    seq(|s|, i requires 0 <= i < |s| => LowerChar(s[i]))
  }

  predicate SameLetter(c: char, d: char) {
    c == d || ('A' <= c <= 'Z' && d as int == c as int + 32) || ('A' <= d <= 'Z' && c as int == d as int + 32)
  }

  /** Two names are equal for the lookup exactly when they differ in the case of ASCII letters only. */
  lemma FoldEqualIff(s: string, t: string)
    ensures Fold(s) == Fold(t) <==> |s| == |t| && forall i :: 0 <= i < |s| ==> SameLetter(s[i], t[i])
  {
    if Fold(s) == Fold(t) {
      forall i | 0 <= i < |s| ensures SameLetter(s[i], t[i]) {
        assert Fold(s)[i] == Fold(t)[i];
      }
    }
  }

  predicate Contains(s: string, t: string) {
    exists i :: 0 <= i <= |s| && t <= s[i..]
  }
}
