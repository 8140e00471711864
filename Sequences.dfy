// The sliding-window loop of `prepare_sequences`: every training pair is a
// window of 50 consecutive symbols, rank-encoded, and the rank of the symbol
// that follows it. The loop runs over `range(0, int(len(notes)/10) - 50)`,
// so only the first tenth of the corpus is ever read; that bound is kept
// exactly as the program has it.
//
// Reshaping the rows into a (pairs x 50 x 1) array, dividing by n_vocab and
// one-hot encoding the targets happen after this loop and are not modelled.
module Sequences {
  import opened Vocabulary

  const SequenceLength: nat := 50

  /** The length of `range(0, int(n / 10) - 50)`: the number of pairs built from n symbols. */
  function PairCount(n: nat): (r: nat)
    ensures r == 0 <==> n < 10 * (SequenceLength + 1)
    ensures r > 0 ==> r + SequenceLength == n / 10
  {
    if n / 10 > SequenceLength then n / 10 - SequenceLength else 0
  }

  /** `[note_to_int[char] for char in window]`. */
  function Encode(window: seq<string>, noteToInt: map<string, nat>): (ranks: seq<nat>)
    requires forall j :: 0 <= j < |window| ==> window[j] in noteToInt
    ensures |ranks| == |window|
  {
    seq(|window|, j requires 0 <= j < |window| => noteToInt[window[j]])
  }

  /** Ranks read back through `pitchnames`. */
  function Decode(ranks: seq<nat>, pitchnames: seq<string>): seq<string>
    requires forall j :: 0 <= j < |ranks| ==> ranks[j] < |pitchnames|
  {
    seq(|ranks|, j requires 0 <= j < |ranks| => pitchnames[ranks[j]])
  }

  /** The window read at step i ends, with its target, inside the first tenth of the corpus. */
  lemma WindowReadsInBounds(n: nat, i: nat)
    requires i < PairCount(n)
    ensures i + SequenceLength < n / 10 <= n
  {
  }

  /** Every symbol of `notes` is a key of `noteToInt` (as `prepare_sequences` builds it). */
  predicate Covers(noteToInt: map<string, nat>, notes: seq<string>)
  {
    forall k :: 0 <= k < |notes| ==> notes[k] in noteToInt
  }

  /** `network_input` as the loop leaves it. */
  function InputRows(notes: seq<string>, noteToInt: map<string, nat>): (rows: seq<seq<nat>>)
    requires Covers(noteToInt, notes)
    ensures |rows| == PairCount(|notes|)
    ensures forall i :: 0 <= i < |rows| ==> |rows[i]| == SequenceLength
    ensures forall i, j :: 0 <= i < |rows| && 0 <= j < SequenceLength ==>
              rows[i][j] == noteToInt[notes[i + j]]
  {
    var rows := seq(PairCount(|notes|), i requires 0 <= i < PairCount(|notes|) =>
      Encode(notes[i..i + SequenceLength], noteToInt));
    assert forall i :: 0 <= i < |rows| ==> rows[i] == Encode(notes[i..i + SequenceLength], noteToInt);
    assert forall i, j :: 0 <= i < |rows| && 0 <= j < SequenceLength ==>
             rows[i][j] == noteToInt[notes[i + j]] by {
      forall i, j | 0 <= i < |rows| && 0 <= j < SequenceLength
        ensures rows[i][j] == noteToInt[notes[i + j]]
      {
        var w := notes[i..i + SequenceLength];
        assert rows[i] == Encode(w, noteToInt) && w[j] == notes[i + j];
      }
    }
    rows
  }

  /** `network_output` as the loop leaves it. */
  function Targets(notes: seq<string>, noteToInt: map<string, nat>): (targets: seq<nat>)
    requires Covers(noteToInt, notes)
    ensures |targets| == PairCount(|notes|)
    ensures forall i :: 0 <= i < |targets| ==> targets[i] == noteToInt[notes[i + SequenceLength]]
  {
    seq(PairCount(|notes|), i requires 0 <= i < PairCount(|notes|) => noteToInt[notes[i + SequenceLength]])
  }

  /** The dictionary `prepare_sequences` builds for `notes`. */
  function Ranks(notes: seq<string>): (noteToInt: map<string, nat>)
    ensures Covers(noteToInt, notes)
  {
    EverySymbolHasRank(notes);
    NoteToInt(Pitchnames(notes))
  }

  /** The body of `prepare_sequences` up to the lists of pairs: the vocabulary,
      the dictionary, and the loop appending one row and one target per step. */
  method PrepareSequences(notes: seq<string>) returns (networkInput: seq<seq<nat>>, networkOutput: seq<nat>)
    ensures networkInput == InputRows(notes, Ranks(notes))
    ensures networkOutput == Targets(notes, Ranks(notes))
  {
    var pitchnames := Pitchnames(notes);
    var noteToInt := NoteToInt(pitchnames);
    assert noteToInt == Ranks(notes);
    networkInput, networkOutput := [], [];
    var stop := |notes| / 10 - SequenceLength;
    var i := 0;
    while i < stop
      invariant 0 <= i <= PairCount(|notes|)
      invariant networkInput == InputRows(notes, noteToInt)[..i]
      invariant networkOutput == Targets(notes, noteToInt)[..i]
    {
      var sequenceIn := notes[i..i + SequenceLength];
      var sequenceOut := notes[i + SequenceLength];
      LoopStep(notes, noteToInt, i);
      networkInput := networkInput + [Encode(sequenceIn, noteToInt)];
      networkOutput := networkOutput + [noteToInt[sequenceOut]];
      i := i + 1;
    }
  }

  /** One step of the loop extends both lists by the pair at index i. */
  lemma LoopStep(notes: seq<string>, noteToInt: map<string, nat>, i: nat)
    requires Covers(noteToInt, notes)
    requires i < PairCount(|notes|)
    ensures InputRows(notes, noteToInt)[..i + 1] ==
              InputRows(notes, noteToInt)[..i] + [Encode(notes[i..i + SequenceLength], noteToInt)]
    ensures Targets(notes, noteToInt)[..i + 1] ==
              Targets(notes, noteToInt)[..i] + [noteToInt[notes[i + SequenceLength]]]
  {
    var rows, w := InputRows(notes, noteToInt), notes[i..i + SequenceLength];
    forall j | 0 <= j < SequenceLength ensures Encode(w, noteToInt)[j] == rows[i][j] {
      assert w[j] == notes[i + j];
    }
    assert Encode(w, noteToInt) == rows[i];
    assert rows[..i + 1] == rows[..i] + [rows[i]];
  }

  // ---------------------------------------------------------------------
  // What the training pairs satisfy.
  // ---------------------------------------------------------------------

  /** A corpus of fewer than 510 symbols yields no pairs at all. */
  lemma SmallCorpusHasNoPairs(notes: seq<string>)
    requires |notes| < 10 * (SequenceLength + 1)
    ensures InputRows(notes, Ranks(notes)) == [] && Targets(notes, Ranks(notes)) == []
  {
  }

  /** Every rank in a row or a target lies in [0, n_vocab). */
  lemma RanksInVocabulary(notes: seq<string>)
    ensures forall i, j :: 0 <= i < |InputRows(notes, Ranks(notes))| && 0 <= j < SequenceLength ==>
              InputRows(notes, Ranks(notes))[i][j] < NVocab(notes)
    ensures forall i :: 0 <= i < |Targets(notes, Ranks(notes))| ==> Targets(notes, Ranks(notes))[i] < NVocab(notes)
  {
    PitchnamesLength(notes);
  }

  /** Decoding row i and target i through `pitchnames` gives back the window
      `notes[i:i+50]` and the symbol right after it. */
  lemma PairDecodes(notes: seq<string>, i: nat)
    requires i < PairCount(|notes|)
    ensures forall j :: 0 <= j < SequenceLength ==> InputRows(notes, Ranks(notes))[i][j] < |Pitchnames(notes)|
    ensures Decode(InputRows(notes, Ranks(notes))[i], Pitchnames(notes)) == notes[i..i + SequenceLength]
    ensures Targets(notes, Ranks(notes))[i] < |Pitchnames(notes)|
    ensures Pitchnames(notes)[Targets(notes, Ranks(notes))[i]] == notes[i + SequenceLength]
  {
    var p, m := Pitchnames(notes), Ranks(notes);
    var row := InputRows(notes, m)[i];
    forall j | 0 <= j < SequenceLength
      ensures row[j] < |p| && p[row[j]] == notes[i..i + SequenceLength][j]
    {
      assert notes[i + j] in m && row[j] == m[notes[i + j]];
      assert notes[i..i + SequenceLength][j] == notes[i + j];
    }
    assert Decode(row, p) == notes[i..i + SequenceLength];
    assert notes[i + SequenceLength] in m;
  }

  /** Consecutive rows overlap in all but one element (stride 1). */
  lemma ConsecutiveRowsOverlap(notes: seq<string>, noteToInt: map<string, nat>, i: nat)
    requires Covers(noteToInt, notes)
    requires i + 1 < PairCount(|notes|)
    ensures InputRows(notes, noteToInt)[i + 1][..SequenceLength - 1] == InputRows(notes, noteToInt)[i][1..]
  {
    var rows := InputRows(notes, noteToInt);
    forall j | 0 <= j < SequenceLength - 1
      ensures rows[i + 1][..SequenceLength - 1][j] == rows[i][1..][j]
    {
    }
  }

  /** The target of pair i is the last element of row i + 1. */
  lemma TargetEndsNextRow(notes: seq<string>, noteToInt: map<string, nat>, i: nat)
    requires Covers(noteToInt, notes)
    requires i + 1 < PairCount(|notes|)
    ensures Targets(notes, noteToInt)[i] == InputRows(notes, noteToInt)[i + 1][SequenceLength - 1]
  {
  }

  /** Pairs read only the first tenth of the corpus: with one dictionary, two
      corpora of the same length that agree there yield the same pairs. */
  lemma PairsReadFirstTenth(notes1: seq<string>, notes2: seq<string>, noteToInt: map<string, nat>)
    requires Covers(noteToInt, notes1) && Covers(noteToInt, notes2)
    requires |notes1| == |notes2|
    requires notes1[..|notes1| / 10] == notes2[..|notes2| / 10]
    ensures InputRows(notes1, noteToInt) == InputRows(notes2, noteToInt)
    ensures Targets(notes1, noteToInt) == Targets(notes2, noteToInt)
  {
    var n := |notes1|;
    forall k | 0 <= k < n / 10 ensures notes1[k] == notes2[k] {
      assert notes1[..n / 10][k] == notes2[..n / 10][k];
    }
    var rows1, rows2 := InputRows(notes1, noteToInt), InputRows(notes2, noteToInt);
    forall i | 0 <= i < |rows1| ensures rows1[i] == rows2[i] {
      forall j | 0 <= j < SequenceLength ensures rows1[i][j] == rows2[i][j] {
        assert notes1[i + j] == notes2[i + j];
      }
    }
  }

  /** Only the first tenth of the corpus and its set of distinct symbols
      matter: two corpora of the same length that agree on both yield the
      same pairs, whatever the remaining nine tenths hold. */
  lemma OnlyFirstTenthIsRead(notes1: seq<string>, notes2: seq<string>)
    requires |notes1| == |notes2|
    requires notes1[..|notes1| / 10] == notes2[..|notes2| / 10]
    requires forall y :: y in notes1 <==> y in notes2
    ensures InputRows(notes1, Ranks(notes1)) == InputRows(notes2, Ranks(notes2))
    ensures Targets(notes1, Ranks(notes1)) == Targets(notes2, Ranks(notes2))
  {
    PitchnamesDependOnSymbolSet(notes1, notes2);
    assert Ranks(notes1) == Ranks(notes2);
    PairsReadFirstTenth(notes1, notes2, Ranks(notes1));
  }
}
