// The vocabulary of `prepare_sequences`: `pitchnames`, the distinct symbols
// in sorted order; `n_vocab`, the number of distinct symbols; and
// `note_to_int`, the dictionary from each symbol to its index in `pitchnames`.
module Vocabulary {
  import opened Text

  /** Ascending under Python's string order, hence free of repeats. */
  predicate StrictlyAscending(s: seq<string>)
  {
    forall i, j :: 0 <= i < j < |s| ==> Less(s[i], s[j])
  }

  /** No symbol occurs twice. */
  predicate Distinct(s: seq<string>)
  {
    forall i, j :: 0 <= i < j < |s| ==> s[i] != s[j]
  }

  /** Adds `x` to an ascending sequence, keeping it ascending and repeat-free. */
  function Insert(x: string, s: seq<string>): (r: seq<string>)
    requires StrictlyAscending(s)
    ensures StrictlyAscending(r)
    ensures forall y :: y in r <==> y == x || y in s
  {
    if |s| == 0 then [x]
    else if x == s[0] then s
    else if Less(x, s[0]) then
      assert forall j :: 0 <= j < |s| ==> Less(x, s[j]) by {
        forall j | 0 <= j < |s| ensures Less(x, s[j]) {
          if j > 0 { LessTransitive(x, s[0], s[j]); }
        }
      }
      [x] + s
    else
      var tail := Insert(x, s[1..]);
      LessTotal(x, s[0]);
      assert forall y :: y in tail ==> Less(s[0], y) by {
        forall y | y in tail ensures Less(s[0], y) {
          if y != x {
            var j :| 0 <= j < |s[1..]| && s[1..][j] == y;
            assert s[j + 1] == y;
          }
        }
      }
      assert s == [s[0]] + s[1..];
      [s[0]] + tail
  }

  /** `sorted(set(notes))`. */
  function Pitchnames(notes: seq<string>): (r: seq<string>)
    ensures StrictlyAscending(r)
    ensures forall y :: y in r <==> y in notes
  {
    if |notes| == 0 then []
    else
      var init := notes[..|notes| - 1];
      var r := Insert(notes[|notes| - 1], Pitchnames(init));
      assert notes == init + [notes[|notes| - 1]];
      r
  }

  /** `len(set(notes))`. */
  function NVocab(notes: seq<string>): nat
  {
    |set y | y in notes|
  }

  lemma AscendingDistinct(s: seq<string>)
    requires StrictlyAscending(s)
    ensures Distinct(s)
  {
    forall i, j | 0 <= i < j < |s| ensures s[i] != s[j] {
      LessIrreflexive(s[i]);
    }
  }

  lemma {:induction false} DistinctCardinality(s: seq<string>)
    requires Distinct(s)
    ensures |set y | y in s| == |s|
  {
    if |s| > 0 {
      var tail := s[1..];
      DistinctCardinality(tail);
      assert (set y | y in s) == {s[0]} + (set y | y in tail);
      assert s[0] !in (set y | y in tail);
    }
  }

  /** `pitchnames` has one entry per distinct symbol: its length is `n_vocab`. */
  lemma PitchnamesLength(notes: seq<string>)
    ensures |Pitchnames(notes)| == NVocab(notes)
  {
    var p := Pitchnames(notes);
    AscendingDistinct(p);
    DistinctCardinality(p);
    assert (set y | y in p) == (set y | y in notes);
  }

  /** There is only one ascending arrangement of a set of strings. */
  lemma {:induction false} AscendingUnique(a: seq<string>, b: seq<string>)
    requires StrictlyAscending(a) && StrictlyAscending(b)
    requires forall y :: y in a <==> y in b
    ensures a == b
  {
    if |a| > 0 { assert a[0] in a; }
    if |b| > 0 { assert b[0] in b; }
    if |a| > 0 && |b| > 0 {
      assert a[0] in b && b[0] in a;
      if a[0] != b[0] {
        var i :| 0 <= i < |b| && b[i] == a[0];
        var j :| 0 <= j < |a| && a[j] == b[0];
        assert i > 0 && j > 0;
        LessAsymmetric(a[0], a[j]);
      }
      forall y ensures y in a[1..] <==> y in b[1..] {
        if y in a[1..] {
          var k :| 0 <= k < |a[1..]| && a[1..][k] == y;
          assert Less(a[0], y) && y != a[0] by { LessIrreflexive(a[0]); }
          assert y in b && y != b[0];
          assert b == [b[0]] + b[1..];
        }
        if y in b[1..] {
          var k :| 0 <= k < |b[1..]| && b[1..][k] == y;
          assert Less(b[0], y) && y != b[0] by { LessIrreflexive(b[0]); }
          assert y in a && y != a[0];
          assert a == [a[0]] + a[1..];
        }
      }
      AscendingUnique(a[1..], b[1..]);
      assert a == [a[0]] + a[1..] && b == [b[0]] + b[1..];
    }
  }

  /** The rank assignment is reproducible: it depends on the set of distinct
      symbols only, not on their order or multiplicity in the corpus. */
  lemma PitchnamesDependOnSymbolSet(notes1: seq<string>, notes2: seq<string>)
    requires forall y :: y in notes1 <==> y in notes2
    ensures Pitchnames(notes1) == Pitchnames(notes2)
  {
    AscendingUnique(Pitchnames(notes1), Pitchnames(notes2));
  }

  /** The index of the last occurrence of `y` in `s`. */
  function LastIndex(s: seq<string>, y: string): (k: nat)
    requires y in s
    ensures k < |s| && s[k] == y
    ensures forall l :: k < l < |s| ==> s[l] != y
  {
    if s[|s| - 1] == y then |s| - 1 else LastIndex(s[..|s| - 1], y)
  }

  /** `dict((note, number) for number, note in enumerate(pitchnames))`: a later
      pair overrides an earlier one with the same key, so a symbol maps to the
      last index it is found at; `pitchnames` never repeats a symbol, and then
      that index is its only one. */
  function NoteToInt(pitchnames: seq<string>): (m: map<string, nat>)
    ensures forall y :: y in m <==> y in pitchnames
    ensures forall y :: y in m ==> m[y] < |pitchnames| && pitchnames[m[y]] == y
    ensures Distinct(pitchnames) ==>
              forall i :: 0 <= i < |pitchnames| ==> pitchnames[i] in m && m[pitchnames[i]] == i
  {
    map y | y in pitchnames :: LastIndex(pitchnames, y)
  }

  /** Every symbol of the corpus is a key of the dictionary built from its
      `pitchnames`, so no lookup in `prepare_sequences` can fail. */
  lemma EverySymbolHasRank(notes: seq<string>)
    ensures forall k :: 0 <= k < |notes| ==> notes[k] in NoteToInt(Pitchnames(notes))
  {
  }

  /** Different symbols get different ranks, each rank lies in [0, n_vocab),
      and each r in that range is the rank of `pitchnames[r]`. */
  lemma RanksInjectiveAndBounded(notes: seq<string>)
    ensures forall x, y :: x in NoteToInt(Pitchnames(notes)) && y in NoteToInt(Pitchnames(notes)) && x != y ==>
              NoteToInt(Pitchnames(notes))[x] != NoteToInt(Pitchnames(notes))[y]
    ensures forall y :: y in NoteToInt(Pitchnames(notes)) ==> NoteToInt(Pitchnames(notes))[y] < NVocab(notes)
    ensures NVocab(notes) == |Pitchnames(notes)|
    ensures forall r :: 0 <= r < |Pitchnames(notes)| ==>
              Pitchnames(notes)[r] in NoteToInt(Pitchnames(notes)) &&
              NoteToInt(Pitchnames(notes))[Pitchnames(notes)[r]] == r
  {
    PitchnamesLength(notes);
    AscendingDistinct(Pitchnames(notes));
  }
}
