// Symbol extraction: the loop at the heart of `get_notes`, which walks the
// parsed events of every MIDI file and turns each note and each chord into
// one string symbol. Parsing itself is not modelled: each file arrives as
// its stream of events.
module Extraction {
  import opened Text

  /** One element of a parsed stream: a note (with the text of its pitch),
      a chord (with its normal-order pitch classes), or anything else. */
  datatype Event = Note(pitch: string) | Chord(normalOrder: seq<int>) | Other

  /** `str(n)` of every integer, in order. */
  function Decimals(xs: seq<int>): (ds: seq<string>)
    ensures |ds| == |xs|
  {
    if |xs| == 0 then [] else [IntToString(xs[0])] + Decimals(xs[1..])
  }

  /** A chord's symbol: its normal-order integers joined by '.'. */
  function ChordSymbol(normalOrder: seq<int>): string
  {
    Join(Decimals(normalOrder), '.')
  }

  /** The symbol one event contributes, if any. */
  function SymbolOf(e: Event): Option<string>
  {
    match e
    case Note(p) => Some(p)
    case Chord(xs) => Some(ChordSymbol(xs))
    case Other => None
  }

  /** The symbols a stream contributes, in stream order (the specification of the loop). */
  function Symbols(events: seq<Event>): seq<string>
  {
    if |events| == 0 then []
    else
      var init := Symbols(events[..|events| - 1]);
      match SymbolOf(events[|events| - 1])
      case Some(s) => init + [s]
      case None => init
  }

  /** Positions of the note and chord events, ascending: the events that yield a symbol. */
  function Positions(events: seq<Event>): (ps: seq<nat>)
    ensures forall k :: 0 <= k < |ps| ==> ps[k] < |events|
    ensures forall k, l :: 0 <= k < l < |ps| ==> ps[k] < ps[l]
    ensures forall i :: 0 <= i < |events| ==> (i in ps <==> !events[i].Other?)
  {
    if |events| == 0 then []
    else
      var init := Positions(events[..|events| - 1]);
      if events[|events| - 1].Other? then init else init + [|events| - 1]
  }

  /** Every file's events, the files in the order they are visited. */
  function Concat(files: seq<seq<Event>>): seq<Event>
  {
    if |files| == 0 then [] else Concat(files[..|files| - 1]) + files[|files| - 1]
  }

  // ---------------------------------------------------------------------
  // The loop itself.
  // ---------------------------------------------------------------------

  /** `get_notes` without the file system: one symbol per note or chord of
      every file, appended to a single list. */
  method GetNotes(files: seq<seq<Event>>) returns (notes: seq<string>)
    ensures notes == Symbols(Concat(files))
  {
    notes := [];
    for f := 0 to |files|
      invariant notes == Symbols(Concat(files[..f]))
    {
      var notesToParse := files[f];
      ghost var before := Concat(files[..f]);
      assert before + notesToParse[..0] == before;
      for k := 0 to |notesToParse|
        invariant notes == Symbols(before + notesToParse[..k])
      {
        var element := notesToParse[k];
        SymbolsStep(before, notesToParse, k);
        match element
        case Note(p) =>
          notes := notes + [p];
        case Chord(xs) =>
          notes := notes + [ChordSymbol(xs)];
        case Other =>
      }
      ConcatStep(files, f);
    }
    assert files[..|files|] == files;
  }

  lemma SymbolsStep(before: seq<Event>, events: seq<Event>, k: nat)
    requires k < |events|
    ensures Symbols(before + events[..k + 1]) ==
              Symbols(before + events[..k]) + match SymbolOf(events[k]) case Some(s) => [s] case None => []
  {
    var seen := before + events[..k];
    assert before + events[..k + 1] == seen + [events[k]];
    assert (seen + [events[k]])[..|seen|] == seen;
  }

  lemma ConcatStep(files: seq<seq<Event>>, f: nat)
    requires f < |files|
    ensures Concat(files[..f + 1]) == Concat(files[..f]) + files[f][..|files[f]|]
  {
    assert files[..f + 1][..f] == files[..f];
    assert files[f][..|files[f]|] == files[f];
  }

  // ---------------------------------------------------------------------
  // What extraction promises.
  // ---------------------------------------------------------------------

  /** One symbol for a note or a chord, none for anything else. */
  lemma SymbolsOfOne(e: Event)
    ensures Symbols([e]) == match e
                            case Note(p) => [p]
                            case Chord(xs) => [ChordSymbol(xs)]
                            case Other => []
  {
    assert [e][..0] == [];
  }

  /** Extraction maps concatenation to concatenation: nothing is reordered,
      merged or deduplicated across a boundary (two files with the same note
      contribute that symbol twice). */
  lemma {:induction false} SymbolsAppend(a: seq<Event>, b: seq<Event>)
    ensures Symbols(a + b) == Symbols(a) + Symbols(b)
  {
    if |b| == 0 {
      assert a + b == a;
    } else {
      var b' := b[..|b| - 1];
      SymbolsAppend(a, b');
      assert (a + b)[..|a + b| - 1] == a + b';
      assert (a + b)[|a + b| - 1] == b[|b| - 1];
    }
  }

  /** The k-th symbol comes from the k-th note-or-chord event: exactly one
      symbol per such event, in stream order. */
  lemma {:induction false} SymbolsAtPositions(events: seq<Event>)
    ensures |Symbols(events)| == |Positions(events)|
    ensures forall k :: 0 <= k < |Positions(events)| ==>
              SymbolOf(events[Positions(events)[k]]) == Some(Symbols(events)[k])
  {
    if |events| > 0 {
      var init := events[..|events| - 1];
      SymbolsAtPositions(init);
      assert forall k :: 0 <= k < |Positions(init)| ==> events[Positions(init)[k]] == init[Positions(init)[k]];
    }
  }

  /** A chord's symbol, split on '.', gives the decimal form of each of its
      normal-order integers (Python's split of the empty string is [""],
      so the chord must have at least one pitch class). */
  lemma ChordSymbolSplits(normalOrder: seq<int>)
    requires |normalOrder| > 0
    ensures Split(ChordSymbol(normalOrder), '.') == Decimals(normalOrder)
  {
    DecimalsHaveNoDot(normalOrder);
    SplitJoin(Decimals(normalOrder), '.');
  }

  lemma {:induction false} DecimalsHaveNoDot(xs: seq<int>)
    ensures forall k :: 0 <= k < |Decimals(xs)| ==> '.' !in Decimals(xs)[k]
  {
    if |xs| > 0 {
      IntToStringHasNoDot(xs[0]);
      DecimalsHaveNoDot(xs[1..]);
    }
  }

  /** Reads every piece of a split chord symbol back as an integer. */
  function ParseAll(pieces: seq<string>): Option<seq<int>>
  {
    if |pieces| == 0 then Some([])
    else match (ParseInt(pieces[0]), ParseAll(pieces[1..]))
      case (Some(x), Some(xs)) => Some([x] + xs)
      case _ => None
  }

  /** A chord symbol decoded back into normal-order integers. */
  function ParseChord(symbol: string): Option<seq<int>>
  {
    ParseAll(Split(symbol, '.'))
  }

  lemma {:induction false} ParseAllDecimals(xs: seq<int>)
    ensures ParseAll(Decimals(xs)) == Some(xs)
  {
    if |xs| > 0 {
      IntToStringRoundTrip(xs[0]);
      ParseAllDecimals(xs[1..]);
      assert [xs[0]] + xs[1..] == xs;
    }
  }

  /** The chord symbol loses nothing: its normal order can be read back from it. */
  lemma ChordSymbolRoundTrip(normalOrder: seq<int>)
    requires |normalOrder| > 0
    ensures ParseChord(ChordSymbol(normalOrder)) == Some(normalOrder)
  {
    ChordSymbolSplits(normalOrder);
    ParseAllDecimals(normalOrder);
  }
}
