# Classical-Piano-Composer: symbol and training-pair preparation

The training script `make-a-sound/Classical-Piano-Composer/exp.py` turns a
directory of MIDI files into a flat list of symbols, one per note or chord.
It then builds a vocabulary of those symbols and cuts the list into training
pairs: a window of 50 symbol ranks, and the rank of the symbol after it. This
project models that data preparation in Dafny and proves what it promises.

- `Text.dfy`: three Python string operations the script relies on. The first is
  the order `sorted` puts `str` values in (code point by code point, a proper
  prefix first). The other two are `str()` of an integer, and `'.'.join` /
  `str.split('.')`.
- `Extraction.dfy`: the loop of `get_notes` over parsed events. A note yields
  its pitch text. A chord yields its normal-order integers joined by `'.'`.
  Anything else yields nothing. `GetNotes` is the nested loop (files, then the
  events of each file), proved equal to the specification function `Symbols`.
- `Vocabulary.dfy`: `pitchnames = sorted(set(notes))` (`Pitchnames`),
  `n_vocab = len(set(notes))` (`NVocab`) and the dictionary `note_to_int`
  (`NoteToInt`).
- `Sequences.dfy`: the window/target loop of `prepare_sequences`.
  `PrepareSequences` appends one row and one target per step, exactly as the
  loop does. It is proved equal to the specification functions `InputRows` and
  `Targets`, and lemmas state the properties of those functions.

The loop runs over `range(0, int(len(notes)/10) - 50)`. That reads only the
first tenth of the corpus; a pass over the whole corpus would stop at
`len(notes) - 50`. This looks unintended, but the model keeps the bound exactly
as the code has it: `PairCount(n) = max(0, n / 10 - 50)`. `OnlyFirstTenthIsRead` makes the
consequence explicit. The model follows the code here and does not "fix" the
bound.

A MIDI file's parsed content is an input: each file is its sequence of events
(`Extraction.Event`), and the files come in the order the directory listing
gives them.

## Model

| member | source | states |
|---|---|---|
| `Text.LessTransitive` | make-a-sound/Classical-Piano-Composer/exp.py:64 | the string order `sorted` uses is transitive |
| `Text.LessTotal` | make-a-sound/Classical-Piano-Composer/exp.py:64 | any two different strings are ordered one way or the other, so sorting is well defined |
| `Text.IntToStringRoundTrip` | make-a-sound/Classical-Piano-Composer/exp.py:49 | `str(n)` of an integer can be read back as exactly `n` |
| `Text.IntToStringHasNoDot` | make-a-sound/Classical-Piano-Composer/exp.py:49 | the decimal form of an integer never contains the chord separator `'.'` |
| `Text.SplitJoin` | make-a-sound/Classical-Piano-Composer/exp.py:49 | splitting a `'.'`-join of one or more parts, none of which holds `'.'`, gives the parts back |
| `Extraction.GetNotes` | make-a-sound/Classical-Piano-Composer/exp.py:32-49 | the list the loop builds over all files equals `Symbols` of all their events, in file order |
| `Extraction.Positions` | make-a-sound/Classical-Piano-Composer/exp.py:45-49 | the positions listed are ascending and are precisely those of the note and chord events |
| `Extraction.SymbolsAtPositions` | make-a-sound/Classical-Piano-Composer/exp.py:45-49 | exactly one symbol per note or chord event and none for others: the k-th symbol is the symbol of the k-th note-or-chord event |
| `Extraction.SymbolsOfOne` | make-a-sound/Classical-Piano-Composer/exp.py:46-49 | a note yields its pitch text, a chord its `'.'`-joined normal order, any other event nothing |
| `Extraction.SymbolsAppend` | make-a-sound/Classical-Piano-Composer/exp.py:45-49 | the symbols of two streams back to back are the symbols of each, concatenated: nothing is reordered or deduplicated (the same note in two files gives two equal symbols) |
| `Extraction.ChordSymbolSplits` | make-a-sound/Classical-Piano-Composer/exp.py:49 | a chord's symbol split on `'.'` is the list of decimal forms of its normal-order integers (for a chord with at least one pitch class) |
| `Extraction.ChordSymbolRoundTrip` | make-a-sound/Classical-Piano-Composer/exp.py:49 | the normal order of a non-empty chord can be decoded from its symbol |
| `Vocabulary.Pitchnames` | make-a-sound/Classical-Piano-Composer/exp.py:64 | `pitchnames` is strictly ascending and contains exactly the symbols that occur in `notes` |
| `Vocabulary.PitchnamesLength` | make-a-sound/Classical-Piano-Composer/exp.py:20 | the length of `pitchnames` (line 64) equals `n_vocab = len(set(notes))` |
| `Vocabulary.AscendingUnique` | make-a-sound/Classical-Piano-Composer/exp.py:64 | two strictly ascending lists with the same members are equal: the sorted vocabulary is unique |
| `Vocabulary.PitchnamesDependOnSymbolSet` | make-a-sound/Classical-Piano-Composer/exp.py:64 | corpora with the same distinct symbols get the same `pitchnames`, so the rank assignment is reproducible |
| `Vocabulary.NoteToInt` | make-a-sound/Classical-Piano-Composer/exp.py:68 | the keys of the dictionary are exactly the entries of `pitchnames`; each key maps to an index of `pitchnames` holding that key (the last such index, as `dict` keeps the later pair); when `pitchnames` has no repeats, every index i is the value of `pitchnames[i]` |
| `Vocabulary.RanksInjectiveAndBounded` | make-a-sound/Classical-Piano-Composer/exp.py:64-68 | for the dictionary built from `pitchnames`: different symbols get different ranks, every rank lies in [0, n_vocab), and every r in that range is the rank of `pitchnames[r]` |
| `Vocabulary.EverySymbolHasRank` | make-a-sound/Classical-Piano-Composer/exp.py:83-85 | every corpus symbol is a key of the dictionary, so no lookup in the loop can fail |
| `Sequences.PairCount` | make-a-sound/Classical-Piano-Composer/exp.py:77 | the loop runs zero times exactly when the corpus has fewer than 510 symbols; otherwise its last step is `int(len/10) - 51` |
| `Sequences.WindowReadsInBounds` | make-a-sound/Classical-Piano-Composer/exp.py:77-81 | at every step i, the target index `i + 50` is below `int(len/10)`, which is at most `len` |
| `Sequences.Ranks` | make-a-sound/Classical-Piano-Composer/exp.py:64-68 | the dictionary built from `sorted(set(notes))` has a key for every symbol of `notes` |
| `Sequences.InputRows` | make-a-sound/Classical-Piano-Composer/exp.py:77-83 | for a dictionary covering the corpus, there are `max(0, int(len/10) - 50)` rows; each has length 50, and element j of row i is the rank of `notes[i+j]` |
| `Sequences.Targets` | make-a-sound/Classical-Piano-Composer/exp.py:81-85 | there is one target per row, and target i is the rank of `notes[i+50]` |
| `Sequences.PrepareSequences` | make-a-sound/Classical-Piano-Composer/exp.py:64-87 | with `pitchnames` and `note_to_int` built from the corpus, the lists the loop appends to end up equal to `InputRows` and `Targets` for that dictionary |
| `Sequences.LoopStep` | make-a-sound/Classical-Piano-Composer/exp.py:79-85 | step i appends the encoded window `notes[i:i+50]` and the rank of `notes[i+50]`, which are entry i of `InputRows` and `Targets` |
| `Sequences.SmallCorpusHasNoPairs` | make-a-sound/Classical-Piano-Composer/exp.py:77 | a corpus of fewer than 510 symbols yields no pairs |
| `Sequences.RanksInVocabulary` | make-a-sound/Classical-Piano-Composer/exp.py:83-85 | every rank in every row and every target lies in [0, n_vocab) |
| `Sequences.PairDecodes` | make-a-sound/Classical-Piano-Composer/exp.py:79-85 | decoding row i through `pitchnames` gives back `notes[i:i+50]`, and decoding target i gives back `notes[i+50]` |
| `Sequences.ConsecutiveRowsOverlap` | make-a-sound/Classical-Piano-Composer/exp.py:77-79 | row i+1 without its last element equals row i without its first element (stride 1) |
| `Sequences.TargetEndsNextRow` | make-a-sound/Classical-Piano-Composer/exp.py:79-81 | target i is the last element of row i+1 |
| `Sequences.PairsReadFirstTenth` | make-a-sound/Classical-Piano-Composer/exp.py:77-85 | with one dictionary, corpora of equal length that agree on their first tenth yield the same rows and targets |
| `Sequences.OnlyFirstTenthIsRead` | make-a-sound/Classical-Piano-Composer/exp.py:77 | corpora of equal length that have the same first tenth and the same distinct symbols yield the same pairs |

## Left out

- File enumeration (`glob`), MIDI parsing (`converter.parse`) and the try/except choice between the first instrument part and the flattened stream (exp.py:32-43): these are file-system I/O and calls into the notation library. Each file's events are an input of `GetNotes` instead. The pitch text of a note (`str(element.pitch)`) is part of that input.
- Pickling the symbol list to `data/notes` (exp.py:51-52): file I/O.
- `numpy.reshape` to shape (pairs x 50 x 1) and the division by `float(n_vocab)` (exp.py:90-93): floating-point numerics. The `n_vocab` parameter of `prepare_sequences` is used only there, so `PrepareSequences` does not take it.
- `np_utils.to_categorical` (exp.py:95): a library call. Its width is the largest target plus one, not necessarily `n_vocab`, so no width is modelled.
- `create_network`, `train` and the rest of `train_network` (exp.py:15-26, 99-146): model building and training in Keras, with checkpoint and log callbacks and floating-point loss.
- All `print` calls.
- The bound `int(len(notes)/10)` is a float division truncated to an integer; the model uses integer division. The two agree for every corpus shorter than 2^52 symbols.
- Python's `sorted` on strings is modelled as the order `Text.Less` (code point by code point). No locale or Unicode normalisation is involved, as in Python.
