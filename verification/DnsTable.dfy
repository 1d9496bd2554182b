/** Reassembly of the JWT: a table of slots filled from the answers, checked, and concatenated. */
module DnsTable {
  import opened Text
  import opened Wrappers
  import opened DnsRecord

  const MAX_RR_RECS := 10
  const SEQ_TABLE_SIZE := MAX_RR_RECS + 1

  type Table = t: seq<Option<string>> | |t| == SEQ_TABLE_SIZE witness seq(SEQ_TABLE_SIZE, i => None)

  function Entries(rrs: seq<Rr>): (es: seq<Entry>)
    ensures |es| == |rrs|
  {
    seq(|rrs|, i requires 0 <= i < |rrs| => EntryOf(rrs[i]))
  }

  /** Each slot holds the text of the last record with that number; slot 0 is for a record without one. */
  function TableOf(es: seq<Entry>): Table {
    if es == [] then seq(SEQ_TABLE_SIZE, i => None)
    else
      var t, last := TableOf(es[..|es| - 1]), es[|es| - 1];
      if last.Item? && last.num < SEQ_TABLE_SIZE then t[last.num := Some(last.text)] else t
  }

  /** The number of TXT records. */
  function Count(es: seq<Entry>): (n: nat)
    ensures n <= |es|
  {
    if es == [] then 0 else Count(es[..|es| - 1]) + (if es[|es| - 1].Item? then 1 else 0)
  }

  predicate GoodEntry(e: Entry, limit: nat) {
    e.Skip? || (e.Item? && e.num <= limit)
  }

  predicate SameNumber(a: Entry, b: Entry) {
    a.Item? && b.Item? && a.num == b.num
  }

  /** No bad record, no number above the limit, and no number twice. */
  predicate GoodEntries(es: seq<Entry>, limit: nat) {
    var good := forall i :: 0 <= i < |es| ==> GoodEntry(es[i], limit);
    var distinct := forall i, j :: 0 <= i < j < |es| ==> !SameNumber(es[i], es[j]);
    good && distinct
  }

  /** A record without a number stands for record 1. */
  function Final(es: seq<Entry>): Table {
    var t := TableOf(es);
    if t[0].Some? then t[1 := t[0]] else t
  }

  /** The check for missing records stops one slot short of the count. */
  predicate Complete(t: Table, n: nat) {
    forall k :: 1 <= k < n && k < SEQ_TABLE_SIZE ==> t[k].Some?
  }

  predicate Accepted(es: seq<Entry>) {
    |es| <= MAX_RR_RECS && GoodEntries(es, |es|) &&
    (TableOf(es)[0].Some? ==> Count(es) <= 1) && Complete(Final(es), Count(es))
  }

  /** Concatenation; an empty slot adds nothing. */
  function Join(slots: seq<Option<string>>): string {
    if slots == [] then ""
    else Join(slots[..|slots| - 1]) + TextOf(slots[|slots| - 1])
  }

  function TextOf(slot: Option<string>): string {
    if slot.Some? then slot.value else ""
  }

  lemma JoinSnoc(t: Table, i: nat)
    requires 1 <= i < SEQ_TABLE_SIZE
    ensures Join(t[1..i + 1]) == Join(t[1..i]) + TextOf(t[i])
  {
    var slots := t[1..i + 1];
    assert slots[..|slots| - 1] == t[1..i] && slots[|slots| - 1] == t[i];
  }

  /** The token, when the answers are accepted. */
  function Assembly(es: seq<Entry>): Option<string> {
    if !Accepted(es) then None
    else Some(Join(Final(es)[1..Count(es) + 1]))
  }

  // ---------- counting ----------

  function OneTo(n: nat): (r: set<nat>)
    ensures |r| == n && forall k :: k in r <==> 1 <= k <= n
  {
    if n == 0 then {} else OneTo(n - 1) + {n}
  }

  lemma {:induction false} Smaller(a: set<nat>, b: set<nat>)
    requires a <= b
    ensures |a| <= |b|
    ensures |a| == |b| ==> a == b
  {
    if a != {} {
      var x :| x in a;
      Smaller(a - {x}, b - {x});
      if |a| == |b| {
        assert a == (a - {x}) + {x} && b == (b - {x}) + {x};
      }
    }
  }

  lemma CountSnoc(es: seq<Entry>, e: Entry)
    ensures Count(es + [e]) == Count(es) + (if e.Item? then 1 else 0)
  {
    assert (es + [e])[..|es|] == es;
  }

  lemma {:induction false} CountAll(es: seq<Entry>)
    requires forall i :: 0 <= i < |es| ==> es[i].Item?
    ensures Count(es) == |es|
  {
    if es != [] {
      CountAll(es[..|es| - 1]);
    }
  }

  lemma TableSnoc(es: seq<Entry>, e: Entry)
    ensures TableOf(es + [e]) ==
            if e.Item? && e.num < SEQ_TABLE_SIZE then TableOf(es)[e.num := Some(e.text)] else TableOf(es)
  {
    assert (es + [e])[..|es|] == es;
  }

  /** The sequence numbers the records carry. */
  function Numbers(es: seq<Entry>): set<nat> {
    set i: nat | i < |es| && es[i].Item? :: es[i].num
  }

  lemma NumbersSnoc(es: seq<Entry>, e: Entry)
    ensures Numbers(es + [e]) == Numbers(es) + (if e.Item? then {e.num} else {})
  {
    var all := es + [e];
    forall n | n in Numbers(es) ensures n in Numbers(all) {
      var i :| 0 <= i < |es| && es[i].Item? && es[i].num == n;
      assert all[i] == es[i];
    }
    assert all[|es|] == e;
  }

  lemma GoodSnoc(es: seq<Entry>, e: Entry, limit: nat)
    requires GoodEntries(es, limit)
    ensures GoodEntries(es + [e], limit) <==> GoodEntry(e, limit) && (e.Item? ==> e.num !in Numbers(es))
  {
    var all := es + [e];
    assert all[|es|] == e && forall i :: 0 <= i < |es| ==> all[i] == es[i];
    if e.Item? && e.num in Numbers(es) {
      var i :| 0 <= i < |es| && es[i].Item? && es[i].num == e.num;
      assert SameNumber(all[i], all[|es|]);
    }
  }

  lemma GoodPrefix(es: seq<Entry>, k: nat, limit: nat)
    requires k <= |es| && GoodEntries(es, limit)
    ensures GoodEntries(es[..k], limit)
  {
  }

  /** What is wrong with a beginning is wrong with the whole. */
  lemma BadSoFar(es: seq<Entry>, k: nat, limit: nat)
    requires k <= |es| && !GoodEntries(es[..k], limit)
    ensures !GoodEntries(es, limit)
  {
    if GoodEntries(es, limit) {
      GoodPrefix(es, k, limit);
    }
  }

  /** Distinct numbers: as many numbers as records. */
  lemma {:induction false} NumbersCount(es: seq<Entry>, limit: nat)
    requires GoodEntries(es, limit)
    ensures |Numbers(es)| == Count(es)
  {
    if es != [] {
      var n := |es| - 1;
      var front, last := es[..n], es[n];
      assert es == front + [last];
      GoodPrefix(es, n, limit);
      NumbersCount(front, limit);
      NumbersSnoc(front, last);
      CountSnoc(front, last);
      GoodSnoc(front, last, limit);
    }
  }

  /** A slot is filled exactly when some record has its number. */
  lemma {:induction false} SlotFilledIff(es: seq<Entry>, k: nat)
    requires k < SEQ_TABLE_SIZE
    ensures TableOf(es)[k].Some? <==> k in Numbers(es)
  {
    if es != [] {
      var n := |es| - 1;
      assert es == es[..n] + [es[n]];
      SlotFilledIff(es[..n], k);
      NumbersSnoc(es[..n], es[n]);
      TableSnoc(es[..n], es[n]);
    }
  }

  /** With distinct numbers each record's text is in its slot. */
  lemma {:induction false} SlotHoldsText(es: seq<Entry>, limit: nat, i: nat)
    requires GoodEntries(es, limit) && i < |es| && es[i].Item? && es[i].num < SEQ_TABLE_SIZE
    ensures TableOf(es)[es[i].num] == Some(es[i].text)
  {
    var n := |es| - 1;
    if i < n {
      SlotHoldsText(es[..n], limit, i);
      assert !SameNumber(es[i], es[n]);
    }
  }

  // ---------- the program ----------

  /** Builds the table in place and returns the number of TXT records, or -1. */
  method GetRrSeqTable(rrs: seq<Rr>, table: array<Option<string>>) returns (num: int)
    requires table.Length == SEQ_TABLE_SIZE
    modifies table
    ensures num == if Accepted(Entries(rrs)) then Count(Entries(rrs)) else -1
    ensures Accepted(Entries(rrs)) ==> table[..] == Final(Entries(rrs))
  {
    if |rrs| > MAX_RR_RECS {
      return -1;
    }
    ClearTable(table);
    num := FillTable(rrs, table);
    if num >= 0 {
      var ok := FinishTable(Entries(rrs), num, table);
      num := if ok then num else -1;
    }
  }

  /** Promotes a record without a number, when it is alone, and looks for missing records. */
  method FinishTable(ghost es: seq<Entry>, num: nat, table: array<Option<string>>) returns (ok: bool)
    requires table.Length == SEQ_TABLE_SIZE && |es| <= MAX_RR_RECS && GoodEntries(es, |es|)
    requires num == Count(es) && table[..] == TableOf(es)
    modifies table
    ensures ok <==> Accepted(es)
    ensures ok ==> table[..] == Final(es)
  {
    assert table[0] == TableOf(es)[0];
    if table[0].Some? {
      if num > 1 {
        return false;
      }
      table[1] := table[0];
    }
    assert table[..] == Final(es);
    var k := 1;
    while k < num
      invariant forall m :: 1 <= m < k && m < SEQ_TABLE_SIZE ==> Final(es)[m].Some?
    {
      assert table[k] == Final(es)[k];
      if table[k].None? {
        return false;
      }
      k := k + 1;
    }
    return true;
  }

  method ClearTable(table: array<Option<string>>)
    requires table.Length == SEQ_TABLE_SIZE
    modifies table
    ensures table[..] == TableOf([])
  {
    var i := 0;
    while i < table.Length
      invariant i <= table.Length
      invariant forall k :: 0 <= k < i ==> table[k] == None
    {
      table[i] := None;
      i := i + 1;
    }
  }

  /** Puts one answer into the table, unless its number is bad, too large or taken. */
  method PlaceRecord(rr: Rr, limit: nat, table: array<Option<string>>, ghost es: seq<Entry>, ghost i: nat)
    returns (ok: bool)
    requires table.Length == SEQ_TABLE_SIZE && limit <= MAX_RR_RECS && i < |es| && es[i] == EntryOf(rr)
    requires GoodEntries(es[..i], limit) && table[..] == TableOf(es[..i])
    modifies table
    ensures ok <==> GoodEntries(es[..i + 1], limit)
    ensures ok ==> table[..] == TableOf(es[..i + 1])
    ensures ok ==> Count(es[..i + 1]) == Count(es[..i]) + if rr.Txt? then 1 else 0
  {
    ghost var front, e := es[..i], es[i];
    assert es[..i + 1] == front + [e];
    TableSnoc(front, e);
    GoodSnoc(front, e, limit);
    CountSnoc(front, e);
    if !rr.Txt? {
      return rr.OtherRr?;
    }
    var entry := ReadRecord(rr.data);
    if entry.Bad? || entry.num > limit {
      return false;
    }
    SlotFilledIff(front, entry.num);
    assert table[entry.num] == TableOf(front)[entry.num];
    if table[entry.num].Some? {
      return false;
    }
    table[entry.num] := Some(entry.text);
    return true;
  }

  /** The scan over the answers: -1 at the first bad, too large or duplicate number. */
  method FillTable(rrs: seq<Rr>, table: array<Option<string>>) returns (num: int)
    requires table.Length == SEQ_TABLE_SIZE && |rrs| <= MAX_RR_RECS && table[..] == TableOf([])
    modifies table
    ensures num == if GoodEntries(Entries(rrs), |rrs|) then Count(Entries(rrs)) else -1
    ensures num >= 0 ==> table[..] == TableOf(Entries(rrs))
  {
    ghost var es := Entries(rrs);
    num := 0;
    var i := 0;
    while i < |rrs|
      invariant i <= |rrs|
      invariant GoodEntries(es[..i], |rrs|)
      invariant table[..] == TableOf(es[..i])
      invariant num == Count(es[..i])
    {
      var ok := PlaceRecord(rrs[i], |rrs|, table, es, i);
      if !ok {
        BadSoFar(es, i + 1, |rrs|);
        return -1;
      }
      num := if rrs[i].Txt? then num + 1 else num;
      i := i + 1;
    }
    assert es[..i] == es;
  }

  method AssembleJwtFromDns(rrs: seq<Rr>) returns (jwt: Option<string>)
    ensures jwt == Assembly(Entries(rrs))
  {
    var table := new Option<string>[SEQ_TABLE_SIZE](_ => None);
    var num := GetRrSeqTable(rrs, table);
    if num < 0 {
      return None;
    }
    assert table[1..num + 1] == table[..][1..num + 1];
    var ans := Concatenate(table, num);
    return Some(ans);
  }

  method Concatenate(table: array<Option<string>>, num: nat) returns (ans: string)
    requires table.Length == SEQ_TABLE_SIZE && num < SEQ_TABLE_SIZE
    ensures ans == Join(table[1..num + 1])
  {
    ans := "";
    var i := 1;
    while i <= num
      invariant 1 <= i <= num + 1
      invariant ans == Join(table[1..i])
    {
      JoinSnoc(table[..], i);
      assert table[..][1..i] == table[1..i] && table[..][1..i + 1] == table[1..i + 1];
      if table[i].Some? {
        ans := ans + table[i].value;
      }
      i := i + 1;
    }
  }

  // ---------- soundness ----------

  /** Every slot from 1 to n is filled. */
  predicate Gapless(t: Table, n: nat) {
    forall k :: 1 <= k <= n && k < SEQ_TABLE_SIZE ==> t[k].Some?
  }

  /**
   Exactly when accepted records leave no gap: none may be numbered beyond the count. The check for missing records
   alone does not see slot n; a pigeonhole argument does. A lone record without a number leaves none.
   */
  lemma GaplessIff(es: seq<Entry>)
    requires Accepted(es)
    ensures Gapless(Final(es), Count(es)) <==> forall k :: k in Numbers(es) ==> k <= Count(es)
    ensures 0 !in Numbers(es) ==> (Gapless(Final(es), Count(es)) <==> Numbers(es) == OneTo(Count(es)))
  {
    if 0 in Numbers(es) {
      LoneIsGapless(es);
    } else {
      NumberedIsGapless(es);
    }
  }

  lemma LoneIsGapless(es: seq<Entry>)
    requires Accepted(es) && 0 in Numbers(es)
    ensures Gapless(Final(es), Count(es)) && forall k :: k in Numbers(es) ==> k <= Count(es)
  {
    NumbersCount(es, |es|);
    SlotFilledIff(es, 0);
    Smaller({0}, Numbers(es));
  }

  lemma FinalSlot(es: seq<Entry>, k: nat)
    requires 0 !in Numbers(es) && k < SEQ_TABLE_SIZE
    ensures Final(es)[k].Some? <==> k in Numbers(es)
  {
    SlotFilledIff(es, 0);
    SlotFilledIff(es, k);
  }

  /** Pigeonhole: n positive numbers up to n are all of them. */
  lemma FillsOneTo(numbers: set<nat>, n: nat)
    requires |numbers| == n && 0 !in numbers && forall k :: k in numbers ==> k <= n
    ensures numbers == OneTo(n)
  {
    Smaller(numbers, OneTo(n));
  }

  lemma NoneBeyondMeansAll(es: seq<Entry>)
    requires Accepted(es) && 0 !in Numbers(es) && forall k :: k in Numbers(es) ==> k <= Count(es)
    ensures Numbers(es) == OneTo(Count(es))
  {
    NumbersCount(es, |es|);
    FillsOneTo(Numbers(es), Count(es));
  }

  lemma GaplessMeansAll(es: seq<Entry>)
    requires Accepted(es) && 0 !in Numbers(es) && Gapless(Final(es), Count(es))
    ensures Numbers(es) == OneTo(Count(es))
  {
    NumbersCount(es, |es|);
    forall k | k in OneTo(Count(es)) ensures k in Numbers(es) {
      FinalSlot(es, k);
    }
    Smaller(OneTo(Count(es)), Numbers(es));
  }

  lemma NumberedIsGapless(es: seq<Entry>)
    requires Accepted(es) && 0 !in Numbers(es)
    ensures Gapless(Final(es), Count(es)) <==> Numbers(es) == OneTo(Count(es))
    ensures Gapless(Final(es), Count(es)) <==> forall k :: k in Numbers(es) ==> k <= Count(es)
  {
    if Gapless(Final(es), Count(es)) {
      GaplessMeansAll(es);
    } else if forall k :: k in Numbers(es) ==> k <= Count(es) {
      NoneBeyondMeansAll(es);
    }
    if Numbers(es) == OneTo(Count(es)) {
      forall k | 1 <= k <= Count(es) && k < SEQ_TABLE_SIZE ensures Final(es)[k].Some? {
        FinalSlot(es, k);
      }
    }
  }

  /** When all n >= 2 answers are TXT and the table is accepted, the numbers are exactly 1..n, each used once. */
  lemma AllTxtIsPermutation(es: seq<Entry>)
    requires Accepted(es) && |es| >= 2 && forall i :: 0 <= i < |es| ==> es[i].Item?
    ensures Count(es) == |es|
    ensures Numbers(es) == OneTo(|es|)
    ensures forall i :: 0 <= i < |es| ==> Final(es)[es[i].num] == Some(es[i].text)
  {
    CountAll(es);
    SlotFilledIff(es, 0);
    forall i | 0 <= i < |es|
      ensures es[i].num in Numbers(es)
      ensures es[i].num <= |es| && Final(es)[es[i].num] == Some(es[i].text)
    {
      assert GoodEntry(es[i], |es|);
      SlotHoldsText(es, |es|, i);
    }
    GaplessIff(es);
  }

  lemma GapTable()
    ensures TableOf([Item(2, "a"), Skip]) == TableOf([])[2 := Some("a")]
    ensures Count([Item(2, "a"), Skip]) == 1
  {
    assert [Item(2, "a"), Skip] == ([] + [Item(2, "a")]) + [Skip];
    TableSnoc([], Item(2, "a"));
    TableSnoc([] + [Item(2, "a")], Skip);
    CountSnoc([], Item(2, "a"));
    CountSnoc([] + [Item(2, "a")], Skip);
  }

  lemma JoinOfGap(t: Table)
    requires t[1].None?
    ensures Join(t[1..2]) == ""
  {
    assert t[1..2] == [None];
    assert Join(t[1..2]) == Join(t[1..2][..0]) + "";
  }

  lemma GapText()
    ensures IsPrinted(Txt("02:a"), 2, "a")
  {
    assert DigitChar(0) == '0' && DigitChar(2) == '2';
    assert Digits2(2) == "02";
    assert "" + (Digits2(2) + ":" + "a") + "" == "02:a";
    assert ':' !in "" && TrailOk("");
  }

  lemma GapAnswers()
    ensures Entries([Txt("02:a"), OtherRr]) == [Item(2, "a"), Skip]
  {
    GapText();
    assert ChunkOk("a");
    PrintedIsRead(Txt("02:a"), 2, "a");
  }

  /** With another type of answer among them, a lone record numbered 2 is accepted and yields the empty token. */
  lemma GapExample()
    ensures var es := Entries([Txt("02:a"), OtherRr]);
            Accepted(es) && Count(es) == 1 && !Gapless(Final(es), 1) && Assembly(es) == Some("")
  {
    GapAnswers();
    GapTable();
    JoinOfGap(Final([Item(2, "a"), Skip]));
  }

  // ---------- round trip ----------

  function Concat(chunks: seq<string>): string {
    if chunks == [] then "" else Concat(chunks[..|chunks| - 1]) + chunks[|chunks| - 1]
  }

  lemma {:induction false} JoinIsConcat(slots: seq<Option<string>>, chunks: seq<string>)
    requires |slots| == |chunks| && forall i :: 0 <= i < |slots| ==> slots[i] == Some(chunks[i])
    ensures Join(slots) == Concat(chunks)
  {
    if slots != [] {
      JoinIsConcat(slots[..|slots| - 1], chunks[..|chunks| - 1]);
    }
  }

  /**
   The answers are the printed chunks 1..n in some order, chunk k + 1 standing at `at[k]`, mixed with answers of
   other types.
   */
  ghost predicate IsShuffle(rrs: seq<Rr>, at: seq<nat>, chunks: seq<string>) {
    |rrs| <= MAX_RR_RECS && |at| == |chunks| <= |rrs| &&
    (forall chunk <- chunks :: ChunkOk(chunk)) &&
    (forall k :: 0 <= k < |at| ==> at[k] < |rrs| && IsPrinted(rrs[at[k]], k + 1, chunks[k])) &&
    (forall i :: 0 <= i < |rrs| ==> i in at || rrs[i] == OtherRr)
  }

  /** What such answers read as. */
  predicate Reads(es: seq<Entry>, at: seq<nat>, chunks: seq<string>) {
    |es| <= MAX_RR_RECS && |at| == |chunks| <= |es| &&
    (forall k :: 0 <= k < |at| ==> at[k] < |es| && es[at[k]] == Item(k + 1, chunks[k])) &&
    (forall i :: 0 <= i < |es| ==>
      es[i].Skip? || (es[i].Item? && 1 <= es[i].num <= |chunks| && at[es[i].num - 1] == i))
  }

  lemma ShuffleReads(rrs: seq<Rr>, at: seq<nat>, chunks: seq<string>)
    requires IsShuffle(rrs, at, chunks)
    ensures Reads(Entries(rrs), at, chunks)
  {
    forall k | 0 <= k < |at|
      ensures at[k] < |rrs| && Entries(rrs)[at[k]] == Item(k + 1, chunks[k])
    {
      assert chunks[k] in chunks;
      PrintedIsRead(rrs[at[k]], k + 1, chunks[k]);
    }
  }

  lemma ReadsGood(es: seq<Entry>, at: seq<nat>, chunks: seq<string>)
    requires Reads(es, at, chunks)
    ensures GoodEntries(es, |es|)
  {
    forall i | 0 <= i < |es| ensures GoodEntry(es[i], |es|) {
    }
    forall i, j | 0 <= i < j < |es| ensures !SameNumber(es[i], es[j]) {
      if es[i].Item? && es[j].Item? {
        assert at[es[i].num - 1] == i && at[es[j].num - 1] == j;
      }
    }
  }

  lemma ReadsNumberSet(es: seq<Entry>, at: seq<nat>, chunks: seq<string>)
    requires Reads(es, at, chunks)
    ensures Numbers(es) == OneTo(|chunks|)
  {
    forall k | k in OneTo(|chunks|) ensures k in Numbers(es) {
      assert es[at[k - 1]].num == k;
    }
    forall k | k in Numbers(es) ensures k in OneTo(|chunks|) {
      var i: nat :| i < |es| && es[i].Item? && es[i].num == k;
    }
  }

  lemma ReadsNumbers(es: seq<Entry>, at: seq<nat>, chunks: seq<string>)
    requires Reads(es, at, chunks)
    ensures GoodEntries(es, |es|)
    ensures Numbers(es) == OneTo(|chunks|) && Count(es) == |chunks|
  {
    ReadsGood(es, at, chunks);
    ReadsNumberSet(es, at, chunks);
    NumbersCount(es, |es|);
  }

  lemma ReadsSlots(es: seq<Entry>, at: seq<nat>, chunks: seq<string>)
    requires Reads(es, at, chunks)
    ensures TableOf(es)[0].None?
    ensures forall k :: 0 <= k < |chunks| ==> TableOf(es)[k + 1] == Some(chunks[k])
  {
    ReadsNumbers(es, at, chunks);
    SlotFilledIff(es, 0);
    forall k | 0 <= k < |chunks|
      ensures TableOf(es)[k + 1] == Some(chunks[k])
    {
      SlotHoldsText(es, |es|, at[k]);
    }
  }

  /** Whatever the order and the wrapping, assembly succeeds and yields the chunks concatenated 1..n. */
  lemma RoundTrip(rrs: seq<Rr>, at: seq<nat>, chunks: seq<string>)
    requires IsShuffle(rrs, at, chunks)
    ensures Assembly(Entries(rrs)) == Some(Concat(chunks))
  {
    var es := Entries(rrs);
    ShuffleReads(rrs, at, chunks);
    ReadsNumbers(es, at, chunks);
    ReadsSlots(es, at, chunks);
    SlotsAssemble(es, chunks);
  }

  /** A slot of the finished table, for slots whose texts are known. */
  lemma SlotsAccepted(es: seq<Entry>, chunks: seq<string>)
    requires |es| <= MAX_RR_RECS && GoodEntries(es, |es|) && Count(es) == |chunks|
    requires TableOf(es)[0].None? && forall k :: 0 <= k < |chunks| ==> TableOf(es)[k + 1] == Some(chunks[k])
    ensures Accepted(es) && Final(es) == TableOf(es)
  {
    forall k | 1 <= k < Count(es) && k < SEQ_TABLE_SIZE ensures TableOf(es)[k].Some? {
      assert TableOf(es)[(k - 1) + 1] == Some(chunks[k - 1]);
    }
  }

  lemma SlotsAssemble(es: seq<Entry>, chunks: seq<string>)
    requires |es| <= MAX_RR_RECS && GoodEntries(es, |es|) && Count(es) == |chunks|
    requires TableOf(es)[0].None? && forall k :: 0 <= k < |chunks| ==> TableOf(es)[k + 1] == Some(chunks[k])
    ensures Assembly(es) == Some(Concat(chunks))
  {
    SlotsAccepted(es, chunks);
    SlotsJoin(TableOf(es), chunks);
  }

  lemma SlotsJoin(t: Table, chunks: seq<string>)
    requires |chunks| <= MAX_RR_RECS && forall k :: 0 <= k < |chunks| ==> t[k + 1] == Some(chunks[k])
    ensures Join(t[1..|chunks| + 1]) == Concat(chunks)
  {
    forall k | 0 <= k < |chunks| ensures t[1..|chunks| + 1][k] == Some(chunks[k]) {
      assert t[1..|chunks| + 1][k] == t[k + 1];
    }
    JoinIsConcat(t[1..|chunks| + 1], chunks);
  }
}
