/**
  The list of answers the recognition instruction allows. Every answer the
  hosted model is told it may give should resolve to a clip; as written,
  one of them cannot.
 */
module Prompt {

  import opened Wrappers
  import PyStr
  import PyDict
  import Resolver

  /** Position of heh in the list. */
  const HehIndex: nat := 29

  /** Answer `p` of the list as written, in the instruction's order. Heh is
      written followed by a tatweel (U+0640), the joining stroke. */
  function WrittenAnswer(p: nat): string
    requires p < 36
  {
    match p
    case 0 => "\U{0627}"
    case 1 => "\U{0623}"
    case 2 => "\U{0625}"
    case 3 => "\U{0622}"
    case 4 => "\U{0649}"
    case 5 => "\U{0628}"
    case 6 => "\U{062A}"
    case 7 => "\U{062B}"
    case 8 => "\U{062C}"
    case 9 => "\U{062D}"
    case 10 => "\U{062E}"
    case 11 => "\U{062F}"
    case 12 => "\U{0630}"
    case 13 => "\U{0631}"
    case 14 => "\U{0632}"
    case 15 => "\U{0633}"
    case 16 => "\U{0634}"
    case 17 => "\U{0635}"
    case 18 => "\U{0636}"
    case 19 => "\U{0637}"
    case 20 => "\U{0638}"
    case 21 => "\U{0639}"
    case 22 => "\U{063A}"
    case 23 => "\U{0641}"
    case 24 => "\U{0642}"
    case 25 => "\U{0643}"
    case 26 => "\U{0644}"
    case 27 => "\U{0645}"
    case 28 => "\U{0646}"
    case 29 => "\U{0647}\U{0640}"
    case 30 => "\U{0648}"
    case 31 => "\U{0624}"
    case 32 => "\U{064A}"
    case 33 => "\U{0626}"
    case 34 => "\U{0629}"
    case 35 => "\U{0621}"
    case _ => ""
  }

  /** The first `n` answers as written. */
  function WrittenBefore(n: nat): seq<string>
    requires n <= 36
  {
    if n == 0 then [] else WrittenBefore(n - 1) + [WrittenAnswer(n - 1)]
  }

  /** The allowed answers as written. */
  const AllowedAsWritten: seq<string> := WrittenBefore(36)

  /** The correction: heh written as the bare letter U+0647. */
  function Corrected(written: seq<string>): (r: seq<string>)
    ensures |r| == |written|
    ensures forall p | 0 <= p < |written| && p != HehIndex :: r[p] == written[p]
    ensures HehIndex < |written| ==> r[HehIndex] == "\U{0647}"
  {
    if HehIndex < |written| then written[HehIndex := "\U{0647}"] else written
  }

  /** The allowed answers as evidently intended: heh is the bare letter. */
  const AllowedAnswers: seq<string> := Corrected(AllowedAsWritten)

  /** Where the letter of table entry `i` stands in the intended list. */
  function PositionOfEntry(i: nat): nat
    requires i < 36
  {
    match i
    case 0 => 21
    case 1 => 0
    case 2 => 1
    case 3 => 2
    case 4 => 3
    case 5 => 4
    case 6 => 5
    case 7 => 18
    case 8 => 11
    case 9 => 12
    case 10 => 23
    case 11 => 22
    case 12 => 9
    case 13 => 29
    case 14 => 35
    case 15 => 8
    case 16 => 25
    case 17 => 10
    case 18 => 26
    case 19 => 27
    case 20 => 28
    case 21 => 24
    case 22 => 13
    case 23 => 17
    case 24 => 15
    case 25 => 16
    case 26 => 19
    case 27 => 34
    case 28 => 6
    case 29 => 7
    case 30 => 30
    case 31 => 31
    case 32 => 32
    case 33 => 33
    case 34 => 20
    case 35 => 14
    case _ => 0
  }

  /** Which table entry holds answer `p` of the intended list. */
  function EntryOfAnswer(p: nat): nat
    requires p < 36
  {
    match p
    case 0 => 1
    case 1 => 2
    case 2 => 3
    case 3 => 4
    case 4 => 5
    case 5 => 6
    case 6 => 28
    case 7 => 29
    case 8 => 15
    case 9 => 12
    case 10 => 17
    case 11 => 8
    case 12 => 9
    case 13 => 22
    case 14 => 35
    case 15 => 24
    case 16 => 25
    case 17 => 23
    case 18 => 7
    case 19 => 26
    case 20 => 34
    case 21 => 0
    case 22 => 11
    case 23 => 10
    case 24 => 21
    case 25 => 16
    case 26 => 18
    case 27 => 19
    case 28 => 20
    case 29 => 13
    case 30 => 30
    case 31 => 31
    case 32 => 32
    case 33 => 33
    case 34 => 27
    case 35 => 14
    case _ => 0
  }

  /** The first `n` answers as written are answers 0 to n - 1, in order. */
  lemma {:induction false} WrittenBeforeInOrder(n: nat)
    requires n <= 36
    ensures |WrittenBefore(n)| == n
    ensures forall p | 0 <= p < n :: WrittenBefore(n)[p] == WrittenAnswer(p)
  {
    if n > 0 {
      WrittenBeforeInOrder(n - 1);
    }
  }

  /** Both lists hold 36 answers in order; they differ only at heh, where
      the written list has heh with tatweel and the intended one the bare
      letter. */
  lemma ListsInOrder()
    ensures |AllowedAsWritten| == |AllowedAnswers| == 36
    ensures forall p | 0 <= p < 36 :: AllowedAsWritten[p] == WrittenAnswer(p)
    ensures AllowedAsWritten[HehIndex] == "\U{0647}\U{0640}" && AllowedAnswers[HehIndex] == "\U{0647}"
    ensures forall p | 0 <= p < 36 && p != HehIndex :: AllowedAnswers[p] == AllowedAsWritten[p]
  {
    WrittenBeforeInOrder(36);
  }

  /** Each table entry's letter stands in the intended list at a known place. */
  lemma EntryPositions()
    ensures |AllowedAnswers| == 36
    ensures forall i | 0 <= i < 36 :: PositionOfEntry(i) < 36 && AllowedAnswers[PositionOfEntry(i)] == Resolver.LetterEntry(i).0
  {
    ListsInOrder();
    WrittenPositions();
  }

  /** The written list against the table entries, position by position:
      only heh's entry (13) and position differ. */
  lemma WrittenPositions()
    ensures forall i | 0 <= i < 36 :: PositionOfEntry(i) < 36 && (PositionOfEntry(i) == HehIndex <==> i == 13)
    ensures forall i | 0 <= i < 36 && i != 13 :: WrittenAnswer(PositionOfEntry(i)) == Resolver.LetterEntry(i).0
    ensures Resolver.LetterEntry(13).0 == "\U{0647}"
  {
  }

  /** The written answers against the table entries, answer by answer. */
  lemma WrittenEntries()
    ensures forall p | 0 <= p < 36 && p != HehIndex :: EntryOfAnswer(p) < 36 && Resolver.LetterEntry(EntryOfAnswer(p)).0 == WrittenAnswer(p)
    ensures EntryOfAnswer(HehIndex) == 13 && Resolver.LetterEntry(13).0 == "\U{0647}"
  {
  }

  /** Each allowed answer is the letter of a known table entry. */
  lemma AnswerEntries()
    ensures |AllowedAnswers| == 36
    ensures forall p | 0 <= p < 36 :: EntryOfAnswer(p) < 36 && Resolver.LetterEntry(EntryOfAnswer(p)).0 == AllowedAnswers[p]
  {
    ListsInOrder();
    WrittenEntries();
  }

  /** No answer is written twice, and apart from heh none is the bare
      letter U+0647. */
  lemma WrittenAnswersDistinct()
    ensures forall p, q | 0 <= p < q < 36 :: WrittenAnswer(p) != WrittenAnswer(q)
    ensures forall p | 0 <= p < 36 && p != HehIndex :: WrittenAnswer(p) != "\U{0647}"
  {
  }

  /** No answer is allowed twice. */
  lemma AnswersDistinct()
    ensures forall p, q | 0 <= p < q < |AllowedAnswers| :: AllowedAnswers[p] != AllowedAnswers[q]
  {
    WrittenAnswersDistinct();
    ListsInOrder();
    forall p, q | 0 <= p < q < |AllowedAnswers|
      ensures AllowedAnswers[p] != AllowedAnswers[q]
    {
      if p != HehIndex && q != HehIndex {
        assert AllowedAnswers[p] == WrittenAnswer(p) && AllowedAnswers[q] == WrittenAnswer(q);
      }
    }
  }

  /** Heh written with a tatweel is two characters, so it is not a key. */
  lemma TatweelHehNotAKey()
    ensures |AllowedAsWritten| == 36
    ensures AllowedAsWritten[HehIndex] == "\U{0647}\U{0640}"
    ensures AllowedAsWritten[HehIndex] !in Resolver.Table
  {
    ListsInOrder();
    Resolver.TableWellFormed();
  }

  /** Every allowed answer other than heh is written as in the table. */
  lemma OtherAnswersAreKeys()
    ensures |AllowedAsWritten| == 36
    ensures forall p | 0 <= p < 36 && p != HehIndex :: AllowedAsWritten[p] in Resolver.Table
  {
    ListsInOrder();
    AnswerEntries();
    Resolver.EntriesInOrder();
    Resolver.TableLookup();
    forall p | 0 <= p < 36 && p != HehIndex
      ensures AllowedAsWritten[p] in Resolver.Table
    {
      var i := EntryOfAnswer(p);
      assert Resolver.LetterEntries[i].0 == AllowedAsWritten[p];
    }
  }

  /** As written, heh with tatweel is an allowed answer that is not a table
      key: an answer obeying the instruction to the letter finds no clip,
      whatever files exist. It is the only such answer. */
  lemma {:induction false} TatweelHehHasNoClip(existing: set<string>)
    ensures |AllowedAsWritten| == 36
    ensures AllowedAsWritten[HehIndex] !in Resolver.Table
    ensures Resolver.AudioPath(AllowedAsWritten[HehIndex], existing) == None
    ensures forall p | 0 <= p < |AllowedAsWritten| && p != HehIndex :: AllowedAsWritten[p] in Resolver.Table
  {
    TatweelHehNotAKey();
    var heh := AllowedAsWritten[HehIndex];
    assert PyStr.EdgeFree(heh);
    assert [] + heh + [] == heh;
    PyStr.StripPadded([], heh, []);
    ListsInOrder();
    OtherAnswersAreKeys();
  }

  /** Every letter of the table is an allowed answer of the intended list. */
  lemma KeysAreAllowed()
    ensures forall k | k in Resolver.Table :: k in AllowedAnswers
  {
    ListsInOrder();
    EntryPositions();
    forall k | k in Resolver.Table
      ensures k in AllowedAnswers
    {
      var i := Resolver.KeyEntry(k);
      assert AllowedAnswers[PositionOfEntry(i)] == k;
    }
  }

  /** Every answer of the intended list is a letter of the table. */
  lemma AllowedAreKeys()
    ensures forall a | a in AllowedAnswers :: a in Resolver.Table
  {
    ListsInOrder();
    AnswerEntries();
    Resolver.EntriesInOrder();
    Resolver.TableLookup();
    forall p | 0 <= p < 36
      ensures AllowedAnswers[p] in Resolver.Table
    {
      var i := EntryOfAnswer(p);
      assert Resolver.LetterEntries[i].0 == AllowedAnswers[p];
    }
  }

  /** The intended list and the table agree: every allowed answer is a
      letter of the table and every letter of the table is allowed, each
      exactly once. */
  lemma AllowedAnswersMatchTable()
    ensures |AllowedAnswers| == |Resolver.Table| == 36
    ensures forall p, q | 0 <= p < q < |AllowedAnswers| :: AllowedAnswers[p] != AllowedAnswers[q]
    ensures forall a | a in AllowedAnswers :: a in Resolver.Table
    ensures forall k | k in Resolver.Table :: k in AllowedAnswers
  {
    Resolver.TableSize();
    ListsInOrder();
    AnswersDistinct();
    AllowedAreKeys();
    KeysAreAllowed();
  }
}
