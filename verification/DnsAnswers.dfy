/** Which sets of answers are accepted, and what a lone record without a number yields. */
module DnsAnswers {
  import opened Wrappers
  import opened DnsRecord
  import opened DnsTable

  // ---------- a record without a number ----------

  /** One record without a number, or numbered 0, among answers of other types. */
  predicate IsLone(es: seq<Entry>, i: nat, text: string) {
    i < |es| <= MAX_RR_RECS && es[i] == Item(0, text) && forall k :: 0 <= k < |es| && k != i ==> es[k].Skip?
  }

  lemma LoneNumbers(es: seq<Entry>, i: nat, text: string)
    requires IsLone(es, i, text)
    ensures GoodEntries(es, |es|) && Numbers(es) == {0} && Count(es) == 1
  {
    assert es[i].Item? && es[i].num == 0;
    assert Numbers(es) == {0};
    NumbersCount(es, |es|);
  }

  /** Its text is the token. */
  lemma LoneAssembles(es: seq<Entry>, i: nat, text: string)
    requires IsLone(es, i, text)
    ensures Assembly(es) == Some(text)
  {
    LoneNumbers(es, i, text);
    SlotHoldsText(es, |es|, i);
    assert TableOf(es)[0] == Some(text);
    JoinOne(Final(es), text);
  }

  lemma JoinOne(t: Table, text: string)
    requires t[1] == Some(text)
    ensures Join(t[1..2]) == text
  {
    JoinSnoc(t, 1);
    assert t[1..1] == [] && "" + text == text;
  }

  /** A chunk in the only TXT answer needs no number: it is the token, whatever non-TXT answers are around it. */
  lemma LoneRoundTrip(rrs: seq<Rr>, i: nat, chunk: string)
    requires i < |rrs| <= MAX_RR_RECS && forall k :: 0 <= k < |rrs| && k != i ==> rrs[k] == OtherRr
    requires ChunkOk(chunk) && ':' !in chunk && IsPlain(rrs[i], chunk)
    ensures Assembly(Entries(rrs)) == Some(chunk)
  {
    PlainIsRead(rrs[i], chunk);
    LoneAssembles(Entries(rrs), i, chunk);
  }

  /** A chunk numbered 00 in the only TXT answer keeps its number. */
  lemma ZeroKeepsItsNumber(rrs: seq<Rr>, i: nat, chunk: string)
    requires i < |rrs| <= MAX_RR_RECS && forall k :: 0 <= k < |rrs| && k != i ==> rrs[k] == OtherRr
    requires ChunkOk(chunk) && IsPrinted(rrs[i], 0, chunk)
    ensures Assembly(Entries(rrs)) == Some("00:" + chunk)
  {
    PrintedIsRead(rrs[i], 0, chunk);
    LoneAssembles(Entries(rrs), i, "00:" + chunk);
  }

  // ---------- which answers are accepted ----------

  predicate Distinct(es: seq<Entry>) {
    forall i, j :: 0 <= i < j < |es| ==> !SameNumber(es[i], es[j])
  }

  lemma DistinctSnoc(es: seq<Entry>, e: Entry)
    ensures Distinct(es + [e]) <==> Distinct(es) && (e.Item? ==> e.num !in Numbers(es))
  {
    var all := es + [e];
    assert all[|es|] == e && forall i :: 0 <= i < |es| ==> all[i] == es[i];
    if Distinct(all) {
      forall i, j | 0 <= i < j < |es| ensures !SameNumber(es[i], es[j]) {
        assert !SameNumber(all[i], all[j]);
      }
      forall i | 0 <= i < |es| ensures !SameNumber(es[i], e) {
        assert !SameNumber(all[i], all[|es|]);
      }
    }
  }

  /** There are never more numbers than records, and as many exactly when none is carried twice. */
  lemma {:induction false} DistinctIff(es: seq<Entry>)
    ensures |Numbers(es)| <= Count(es)
    ensures |Numbers(es)| == Count(es) <==> Distinct(es)
  {
    if es != [] {
      var n := |es| - 1;
      var front, last := es[..n], es[n];
      assert es == front + [last];
      DistinctIff(front);
      DistinctSnoc(front, last);
      NumbersSnoc(front, last);
      CountSnoc(front, last);
      if last.Item? && last.num in Numbers(front) {
        assert Numbers(es) == Numbers(front);
      }
    }
  }

  lemma GoodIff(es: seq<Entry>)
    ensures GoodEntries(es, |es|) <==>
            (forall e <- es :: !e.Bad?) && (forall k <- Numbers(es) :: k <= |es|) && |Numbers(es)| == Count(es)
  {
    DistinctIff(es);
    if forall i :: 0 <= i < |es| ==> GoodEntry(es[i], |es|) {
      forall k | k in Numbers(es) ensures k <= |es| {
        var i: nat :| i < |es| && es[i].Item? && es[i].num == k;
        assert GoodEntry(es[i], |es|);
      }
      forall e | e in es ensures !e.Bad? {
        var i: nat :| i < |es| && es[i] == e;
        assert GoodEntry(es[i], |es|);
      }
    } else {
      var i :| 0 <= i < |es| && !GoodEntry(es[i], |es|);
      assert es[i] in es;
      assert es[i].Item? ==> es[i].num in Numbers(es);
    }
  }

  lemma CompleteIff(es: seq<Entry>)
    requires GoodEntries(es, |es|) && |es| <= MAX_RR_RECS && 0 !in Numbers(es)
    ensures Complete(Final(es), Count(es)) <==> forall k :: 1 <= k < Count(es) ==> k in Numbers(es)
  {
    forall k: nat | k < SEQ_TABLE_SIZE ensures Final(es)[k].Some? <==> k in Numbers(es) {
      FinalSlot(es, k);
    }
  }

  /**
   Told from the numbers alone: at most ten answers, none of them refused, as many numbers as records, none above the
   count of answers, and either one record without a number or all numbers below the count of records.
   */
  lemma AcceptedIff(es: seq<Entry>)
    ensures Accepted(es) <==>
            |es| <= MAX_RR_RECS && (forall e <- es :: !e.Bad?) && (forall k <- Numbers(es) :: k <= |es|) &&
            |Numbers(es)| == Count(es) &&
            (if 0 in Numbers(es) then Count(es) == 1 else forall k :: 1 <= k < Count(es) ==> k in Numbers(es))
  {
    GoodIff(es);
    if |es| <= MAX_RR_RECS && GoodEntries(es, |es|) {
      SlotFilledIff(es, 0);
      if 0 in Numbers(es) {
        Smaller({0}, Numbers(es));
      } else {
        CompleteIff(es);
      }
    }
  }
}
