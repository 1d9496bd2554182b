/**
 One TXT answer of a JWT query: a two-digit sequence number, a colon and a chunk, possibly with a length or
 quote character in front and a quote or newline behind.
 */
module DnsRecord {
  import opened Text
  import opened Wrappers

  /** One answer: unparsable, of another type, or TXT data. */
  datatype Rr = BadRr | OtherRr | Txt(data: string)

  /** What an answer means for the table: an error, nothing, or text for a slot. */
  datatype Entry = Bad | Skip | Item(num: nat, text: string)

  predicate ValidB64(c: char) {
    'A' <= c <= 'Z' || 'a' <= c <= 'z' || '0' <= c <= '9' || c == '/' || c == '+' || c == '-' || c == '_'
  }

  function DropLastIfBad(s: string): string {
    if s != "" && !ValidB64(s[|s| - 1]) then s[..|s| - 1] else s
  }

  /** Drops one leading non-digit and up to two trailing characters that are not base64. */
  function StripRrData(data: string): string {
    var s := DropFirst(data);
    DropLastIfBad(DropLastIfBad(s))
  }

  // ---------- the sequence number ----------

  datatype SeqPos = At(pos: nat) | NotFound | Invalid

  /** The number of digits that end a string. */
  function DigitRun(s: string): (n: nat)
    ensures n <= |s|
  {
    if s == "" || !IsDigit(s[|s| - 1]) then 0 else 1 + DigitRun(s[..|s| - 1])
  }

  /** `i` is the first colon. */
  predicate FirstColon(s: string, i: nat) {
    i < |s| && s[i] == ':' && ':' !in s[..i]
  }

  /** Where the first colon puts the sequence number: two places before it, if two digits stand there. */
  predicate IsSeqPos(s: string, r: SeqPos) {
    match r
    case NotFound => ':' !in s
    case At(pos) => FirstColon(s, pos + 2) && DigitRun(s[..pos + 2]) >= 2
    case Invalid => exists i :: 0 <= i < |s| && FirstColon(s, i) && DigitRun(s[..i]) < 2
  }

  /** There is only one first colon, so the verdict is unique. */
  lemma SeqPosUnique(s: string, a: SeqPos, b: SeqPos)
    requires IsSeqPos(s, a) && IsSeqPos(s, b)
    ensures a == b
  {
    forall i, j | 0 <= i < j < |s| && FirstColon(s, i)
      ensures !FirstColon(s, j)
    {
      assert s[..j][i] == ':';
    }
  }

  /** The verdict as a function, for use in specifications. */
  function SeqPosOf(s: string, from: nat): (r: SeqPos)
    requires from <= |s| && ':' !in s[..from]
    ensures IsSeqPos(s, r)
    decreases |s| - from
  {
    if from == |s| then
      assert s[..from] == s;
      NotFound
    else if s[from] == ':' then
      assert FirstColon(s, from);
      if DigitRun(s[..from]) >= 2 then At(from - 2) else Invalid
    else SeqPosOf(s, from + 1)
  }

  method FindSeqNum(s: string) returns (r: SeqPos)
    ensures IsSeqPos(s, r)
    ensures r == SeqPosOf(s, 0)
  {
    var digits := 0;
    var i := 0;
    while i < |s|
      invariant i <= |s| && ':' !in s[..i] && digits == DigitRun(s[..i])
      invariant SeqPosOf(s, 0) == SeqPosOf(s, i)
    {
      if s[i] == ':' {
        return if digits >= 2 then At(i - 2) else Invalid;
      }
      assert s[..i + 1][..i] == s[..i];
      digits := if IsDigit(s[i]) then digits + 1 else 0;
      i := i + 1;
    }
    return NotFound;
  }

  /** The number written by the first two characters, if a colon follows. */
  function GetRrSeqNum(s: string): (n: int)
    ensures -1 <= n <= 99
  {
    if |s| < 3 || s[2] != ':' || !IsDigit(s[0]) || !IsDigit(s[1]) then -1 else 10 * Digit(s[0]) + Digit(s[1])
  }

  /** Reads stripped data whose sequence number is at `r`; number 0 keeps its prefix. */
  function EntryAt(s: string, r: SeqPos): Entry
    requires r.At? ==> r.pos + 2 < |s|
  {
    match r
    case Invalid => Bad
    case NotFound => Item(0, s)
    case At(pos) =>
      var n := GetRrSeqNum(s[pos..]);
      if n < 0 then Bad else Item(n, if n == 0 then s[pos..] else s[pos + 3..])
  }

  function EntryOf(rr: Rr): Entry {
    match rr
    case BadRr => Bad
    case OtherRr => Skip
    case Txt(data) => EntryAt(StripRrData(data), SeqPosOf(StripRrData(data), 0))
  }

  method ReadRecord(data: string) returns (e: Entry)
    ensures e == EntryOf(Txt(data))
  {
    var s := StripRrData(data);
    var r := FindSeqNum(s);
    e := EntryAt(s, r);
  }

  // ---------- printing ----------

  function Digits2(k: nat): string
    requires k < 100
  {
    [DigitChar(k / 10), DigitChar(k % 10)]
  }

  /** At most two trailing characters, not base64. */
  predicate TrailOk(trail: string) {
    |trail| <= 2 && forall i :: 0 <= i < |trail| ==> !ValidB64(trail[i])
  }

  predicate ChunkOk(chunk: string) {
    chunk != "" && ValidB64(chunk[|chunk| - 1])
  }

  /** Answer `rr` is some printing of chunk number `k`; what stands before the number does not matter. */
  ghost predicate IsPrinted(rr: Rr, k: nat, chunk: string)
    requires k < 100
  {
    exists lead, trail ::
      ':' !in lead && TrailOk(trail) && rr == Txt(lead + (Digits2(k) + ":" + chunk) + trail)
  }

  /** The string without its first character, when that is not a digit. */
  function DropFirst(s: string): string {
    if s != "" && !IsDigit(s[0]) then s[1..] else s
  }

  /** Stripping leaves a first character that is a digit, and drops what is not base64 from the end, but at most two. */
  lemma StripUndoesWrap(body: string, trail: string)
    requires TrailOk(trail) && DropFirst(body) != "" && (|trail| == 2 || ValidB64(body[|body| - 1]))
    ensures StripRrData(body + trail) == DropFirst(body)
  {
    var data := body + trail;
    var s := DropFirst(data);
    assert s == DropFirst(body) + trail;
    if |trail| == 2 {
      assert DropLastIfBad(s) == DropFirst(body) + trail[..1];
      assert DropLastIfBad(DropFirst(body) + trail[..1]) == DropFirst(body);
    } else if |trail| == 1 {
      assert DropLastIfBad(s) == DropFirst(body);
    } else {
      assert s == DropFirst(body);
    }
  }

  lemma RunOfTwo(lead: string, k: nat)
    requires k < 100
    ensures DigitRun(lead + Digits2(k)) >= 2
  {
    var s := lead + Digits2(k);
    assert s[..|s| - 1] == lead + [DigitChar(k / 10)];
  }

  /** Wherever the number stands, it is found if no colon is before it. */
  lemma PrintedSeqPos(lead: string, k: nat, chunk: string)
    requires k < 100 && ':' !in lead
    ensures SeqPosOf(lead + (Digits2(k) + ":" + chunk), 0) == At(|lead|)
  {
    var s := lead + (Digits2(k) + ":" + chunk);
    assert s[..|lead| + 2] == lead + Digits2(k);
    RunOfTwo(lead, k);
    assert FirstColon(s, |lead| + 2);
    SeqPosUnique(s, SeqPosOf(s, 0), At(|lead|));
  }

  /** The number is dropped with its colon and what is before it, except that number 0 stays. */
  lemma PrintedEntry(lead: string, k: nat, chunk: string)
    requires k < 100
    ensures EntryAt(lead + (Digits2(k) + ":" + chunk), At(|lead|)) ==
            Item(k, if k == 0 then "00:" + chunk else chunk)
  {
    var body := Digits2(k) + ":" + chunk;
    var s := lead + body;
    assert s[|lead|..] == body && s[|lead| + 3..] == chunk;
    assert body[0] == DigitChar(k / 10) && body[1] == DigitChar(k % 10) && body[2] == ':';
    if k == 0 {
      assert DigitChar(0) == '0' && Digits2(0) == "00";
    }
  }

  /** Reading any printing of a chunk gives back its number and its text. */
  lemma PrintedIsRead(rr: Rr, k: nat, chunk: string)
    requires k < 100 && ChunkOk(chunk) && IsPrinted(rr, k, chunk)
    ensures EntryOf(rr) == Item(k, if k == 0 then "00:" + chunk else chunk)
  {
    var lead, trail :| ':' !in lead && TrailOk(trail) && rr == Txt(lead + (Digits2(k) + ":" + chunk) + trail);
    var body := Digits2(k) + ":" + chunk;
    assert body[0] == DigitChar(k / 10) && body[|body| - 1] == chunk[|chunk| - 1];
    assert DropFirst(lead + body) == DropFirst(lead) + body;
    StripUndoesWrap(lead + body, trail);
    PrintedSeqPos(DropFirst(lead), k, chunk);
    PrintedEntry(DropFirst(lead), k, chunk);
  }

  /** A chunk without a number, behind at most one character that is not a digit. */
  ghost predicate IsPlain(rr: Rr, chunk: string) {
    exists lead, trail ::
      (if lead == "" then chunk != "" && IsDigit(chunk[0]) else |lead| == 1 && !IsDigit(lead[0])) &&
      TrailOk(trail) && rr == Txt(lead + chunk + trail)
  }

  /** Without a colon there is no number, and the text is the chunk. */
  lemma PlainIsRead(rr: Rr, chunk: string)
    requires ChunkOk(chunk) && ':' !in chunk && IsPlain(rr, chunk)
    ensures EntryOf(rr) == Item(0, chunk)
  {
    var lead, trail :|
      (if lead == "" then chunk != "" && IsDigit(chunk[0]) else |lead| == 1 && !IsDigit(lead[0])) &&
      TrailOk(trail) && rr == Txt(lead + chunk + trail);
    assert DropFirst(lead + chunk) == chunk;
    StripUndoesWrap(lead + chunk, trail);
    SeqPosUnique(chunk, SeqPosOf(chunk, 0), NotFound);
  }

  /** The last two of a run of digits. */
  lemma RunHasTwo(s: string)
    requires DigitRun(s) >= 2
    ensures |s| >= 2 && IsDigit(s[|s| - 1]) && IsDigit(s[|s| - 2])
  {
    assert s[..|s| - 1][|s| - 2] == s[|s| - 2];
  }

  lemma OneFirstColon(s: string, p: nat)
    requires FirstColon(s, p)
    ensures forall i :: 0 <= i < |s| && i != p ==> !FirstColon(s, i)
  {
    forall i | 0 <= i < |s| && i != p ensures !FirstColon(s, i) {
      if i < p {
        assert s[..p][i] == s[i];
      } else {
        assert s[..i][p] == ':';
      }
    }
  }

  /** An answer is refused exactly when fewer than two digits stand before the first colon of its stripped data. */
  lemma RefusedIff(data: string)
    ensures var s := StripRrData(data);
            EntryOf(Txt(data)).Bad? <==> exists i :: 0 <= i < |s| && FirstColon(s, i) && DigitRun(s[..i]) < 2
  {
    var s := StripRrData(data);
    var r := SeqPosOf(s, 0);
    if r.At? {
      RunHasTwo(s[..r.pos + 2]);
      assert s[r.pos..][0] == s[r.pos] && s[r.pos..][1] == s[r.pos + 1] && s[r.pos..][2] == ':';
      OneFirstColon(s, r.pos + 2);
    }
  }
}
