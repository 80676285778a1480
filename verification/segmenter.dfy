/**
  Cutting a document's text into chunks of roughly a target number of tokens.

  The text is broken into units: paragraphs (split on a blank line `\n\n`), then
  sentences (split at whitespace following `.`, `!` or `?`), then lines; every
  unit is stripped and blank ones are dropped. Units are packed greedily: a unit
  joins the current chunk while the total stays within the maximum; otherwise a
  chunk that already has the minimum is closed, and a chunk below the minimum
  takes the unit anyway and is then closed. A last chunk below the minimum is
  folded into the one before it.

  The token counter is a parameter (`tokens`), the maximum and minimum are
  `11 * target / 10` and `target / 2`, and the abort flag is read through an
  `Abort` clock: one poll before each paragraph, then one before each packing step.
*/
module Segmenter {
  import opened Wrappers
  import Text
  import Cancellation

  // ------------------------------------------------------------ units

  /** `(?<=[.!?])\s+` can start at `k`: whitespace right after sentence punctuation. */
  predicate BreakAt(x: string, k: nat) {
    0 < k < |x| && x[k - 1] in ".!?" && Text.IsSpace(x[k])
  }

  /** The first position at or after `from` where a sentence break starts, or `|x|`. */
  function FirstBreak(x: string, from: nat): (k: nat)
    requires from <= |x|
    ensures from <= k <= |x|
    ensures k < |x| ==> BreakAt(x, k)
    ensures forall j :: from <= j < k ==> !BreakAt(x, j)
    decreases |x| - from
  {
    if from == |x| then from
    else if BreakAt(x, from) then from
    else FirstBreak(x, from + 1)
  }

  /** The end of the whitespace run starting at `k` (the greedy `\s+`). */
  function SpaceRunEnd(x: string, k: nat): (e: nat)
    requires k <= |x|
    ensures k <= e <= |x|
    ensures Text.SpaceBetween(x, k, e)
    ensures e == |x| || !Text.IsSpace(x[e])
    decreases |x| - k
  {
    if k < |x| && Text.IsSpace(x[k]) then SpaceRunEnd(x, k + 1) else k
  }

  /** `re.split(r'(?<=[.!?])\s+', x)`. */
  function SplitSentences(x: string): (r: seq<string>)
    ensures |r| >= 1
    decreases |x|
  {
    var k := FirstBreak(x, 0);
    if k == |x| then [x]
    else
      var e := SpaceRunEnd(x, k);
      [x[..k]] + SplitSentences(x[e..])
  }

  /** `[p.strip() for p in xs if p.strip()]`. */
  function NonBlank(xs: seq<string>): (r: seq<string>)
    ensures |r| <= |xs|
    ensures forall i :: 0 <= i < |r| ==> r[i] != [] && Text.IsStripped(r[i])
  {
    if xs == [] then []
    else
      var t := Text.Strip(xs[0]);
      (if t == [] then [] else [t]) + NonBlank(xs[1..])
  }

  /** The whitespace runs `SplitSentences` cuts out, in order. */
  function SentenceGaps(x: string): seq<string>
    decreases |x|
  {
    var k := FirstBreak(x, 0);
    if k == |x| then []
    else
      var e := SpaceRunEnd(x, k);
      [x[k..e]] + SentenceGaps(x[e..])
  }

  /** `ps[0] + gaps[0] + ps[1] + ... + gaps[n-1] + ps[n]`. */
  function Interleave(ps: seq<string>, gaps: seq<string>): string
    requires |ps| == |gaps| + 1
  {
    if gaps == [] then ps[0] else ps[0] + gaps[0] + Interleave(ps[1..], gaps[1..])
  }

  /** `r` and `gaps` are a split of `x` at sentence breaks, as `re.split` makes it. */
  ghost predicate SentencePieces(x: string, r: seq<string>, gaps: seq<string>) {
    && |r| == |gaps| + 1
    && Interleave(r, gaps) == x
    && (forall i :: 0 <= i < |gaps| ==> gaps[i] != [] && Text.AllSpace(gaps[i]))
    && (forall i :: 0 <= i < |r| - 1 ==> r[i] != [] && r[i][|r[i]| - 1] in ".!?")
    && (forall i, j: nat :: 0 <= i < |r| ==> !BreakAt(r[i], j))
    && (forall i :: 1 <= i < |r| && r[i] != [] ==> !Text.IsSpace(r[i][0]))
  }

  /** One cut at the first break `k`, with the greedy run ending at `e`, in front of a split of the rest. */
  lemma SentencePiecesCons(x: string, k: nat, e: nat, r: seq<string>, gaps: seq<string>)
    requires k < e <= |x| && BreakAt(x, k)
    requires forall j :: 0 <= j < k ==> !BreakAt(x, j)
    requires Text.SpaceBetween(x, k, e) && (e == |x| || !Text.IsSpace(x[e]))
    requires SentencePieces(x[e..], r, gaps)
    ensures SentencePieces(x, [x[..k]] + r, [x[k..e]] + gaps)
  {
    var r', g' := [x[..k]] + r, [x[k..e]] + gaps;
    CutInterleave(x, k, e, r, gaps);
    PrefixNoBreak(x, k);
    RunAllSpace(x, k, e);
    RestStartsSolid(x, e, r, gaps);
    forall i | 1 <= i < |r'| && r'[i] != [] ensures !Text.IsSpace(r'[i][0]) {
      assert r'[i] == r[i - 1];
    }
    forall i | 0 <= i < |r'| - 1 ensures r'[i] != [] && r'[i][|r'[i]| - 1] in ".!?" {
      if i > 0 { assert r'[i] == r[i - 1]; }
    }
    forall i, j: nat | 0 <= i < |r'| ensures !BreakAt(r'[i], j) {
      if i > 0 { assert r'[i] == r[i - 1]; }
    }
    forall i | 0 <= i < |g'| ensures g'[i] != [] && Text.AllSpace(g'[i]) {
      if i > 0 { assert g'[i] == gaps[i - 1]; }
    }
    SentencePiecesIntro(x, r', g');
  }

  lemma SentencePiecesIntro(x: string, r: seq<string>, gaps: seq<string>)
    requires |r| == |gaps| + 1
    requires Interleave(r, gaps) == x
    requires forall i :: 0 <= i < |gaps| ==> gaps[i] != [] && Text.AllSpace(gaps[i])
    requires forall i :: 0 <= i < |r| - 1 ==> r[i] != [] && r[i][|r[i]| - 1] in ".!?"
    requires forall i, j: nat :: 0 <= i < |r| ==> !BreakAt(r[i], j)
    requires forall i :: 1 <= i < |r| && r[i] != [] ==> !Text.IsSpace(r[i][0])
    ensures SentencePieces(x, r, gaps)
  {
  }

  lemma CutInterleave(x: string, k: nat, e: nat, r: seq<string>, gaps: seq<string>)
    requires k <= e <= |x| && |r| == |gaps| + 1 && Interleave(r, gaps) == x[e..]
    ensures Interleave([x[..k]] + r, [x[k..e]] + gaps) == x
  {
    var r', g' := [x[..k]] + r, [x[k..e]] + gaps;
    assert r'[1..] == r && g'[1..] == gaps;
    assert x == x[..k] + x[k..e] + x[e..];
  }

  lemma PrefixNoBreak(x: string, k: nat)
    requires k <= |x| && forall j :: 0 <= j < k ==> !BreakAt(x, j)
    ensures forall j: nat :: !BreakAt(x[..k], j)
  {
    forall j: nat ensures !BreakAt(x[..k], j) {
      if BreakAt(x[..k], j) { assert BreakAt(x, j); }
    }
  }

  lemma RunAllSpace(x: string, k: nat, e: nat)
    requires k < e <= |x| && Text.SpaceBetween(x, k, e)
    ensures x[k..e] != [] && Text.AllSpace(x[k..e])
  {
    forall i | 0 <= i < e - k ensures Text.IsSpace(x[k..e][i]) { assert x[k..e][i] == x[k + i]; }
  }

  lemma RestStartsSolid(x: string, e: nat, r: seq<string>, gaps: seq<string>)
    requires e <= |x| && (e == |x| || !Text.IsSpace(x[e]))
    requires |r| == |gaps| + 1 && Interleave(r, gaps) == x[e..]
    ensures r[0] != [] ==> !Text.IsSpace(r[0][0])
  {
    if r[0] != [] {
      assert r[0] == Interleave(r, gaps)[..|r[0]|];
      assert x[e..][0] == x[e];
    }
  }

  /**
    The sentence split loses nothing but the separators: the pieces with the cut
    whitespace runs put back are `x`; every cut is a non-empty run of whitespace;
    every piece but the last ends with `.`, `!` or `?`; no piece holds a break of
    its own; and a piece after a cut does not start with whitespace (the run is
    greedy).
  */
  lemma {:induction false} SplitSentencesSpec(x: string)
    ensures SentencePieces(x, SplitSentences(x), SentenceGaps(x))
    decreases |x|
  {
    var k := FirstBreak(x, 0);
    if k == |x| {
      forall j: nat ensures !BreakAt(x, j) {
        if j < |x| { assert !BreakAt(x, j); }
      }
    } else {
      var e := SpaceRunEnd(x, k);
      SplitSentencesSpec(x[e..]);
      SentencePiecesCons(x, k, e, SplitSentences(x[e..]), SentenceGaps(x[e..]));
    }
  }

  /** The kept units of one piece: its strip, when that is not empty. */
  lemma NonBlankSingle(x: string)
    ensures NonBlank([x]) == if Text.Strip(x) == [] then [] else [Text.Strip(x)]
  {
    assert [x][1..] == [];
  }

  /** `NonBlank` works piece by piece: it keeps order and multiplicity. */
  lemma {:induction false} NonBlankAppend(a: seq<string>, b: seq<string>)
    ensures NonBlank(a + b) == NonBlank(a) + NonBlank(b)
  {
    if a != [] {
      assert (a + b)[0] == a[0];
      assert (a + b)[1..] == a[1..] + b;
      NonBlankAppend(a[1..], b);
    } else {
      assert a + b == b;
    }
  }

  /** The units of one sentence: its stripped, non-blank lines. */
  function LineUnits(sentence: string): seq<string> {
    NonBlank(Text.Split(Text.Strip(sentence), "\n"))
  }

  /** The lists `f` gives for each element, concatenated in order. */
  function FlatMap<T>(xs: seq<T>, f: T -> seq<string>): seq<string> {
    if xs == [] then [] else f(xs[0]) + FlatMap(xs[1..], f)
  }

  /** The units of a list of sentences, in order. */
  function SentenceUnits(sentences: seq<string>): seq<string> {
    FlatMap(sentences, LineUnits)
  }

  /** The units of one paragraph. */
  function ParagraphUnits(paragraph: string): seq<string> {
    SentenceUnits(SplitSentences(Text.Strip(paragraph)))
  }

  /** `[p.strip() for p in text.split("\n\n") if p.strip()]`. */
  function Paragraphs(text: string): seq<string> {
    NonBlank(Text.Split(text, "\n\n"))
  }

  /** The units of a list of paragraphs, with no abort. */
  function AllUnits(ps: seq<string>): seq<string> {
    FlatMap(ps, ParagraphUnits)
  }

  /**
    The unit loop: before each element the abort flag is polled, and once it is
    seen the loop stops. Returns what was gathered and the next poll number.
  */
  function CollectFlat<T>(xs: seq<T>, f: T -> seq<string>, abort: Cancellation.Abort, poll: nat): (r: (seq<string>, nat))
    ensures poll <= r.1 <= poll + |xs|
    ensures xs != [] && Cancellation.SeenAt(abort, poll) ==> r == ([], poll + 1)
    ensures !Cancellation.SeenAt(abort, poll + |xs|) ==> r == (FlatMap(xs, f), poll + |xs|)
    ensures r.0 != FlatMap(xs, f) ==> r.1 >= 1 && Cancellation.SeenAt(abort, r.1 - 1)
    decreases |xs|
  {
    if xs == [] then ([], poll)
    else if Cancellation.SeenAt(abort, poll) then ([], poll + 1)
    else
      var rest := CollectFlat(xs[1..], f, abort, poll + 1);
      (f(xs[0]) + rest.0, rest.1)
  }

  /** The units gathered from the paragraphs, one abort poll per paragraph. */
  function CollectUnits(ps: seq<string>, abort: Cancellation.Abort, poll: nat): (r: (seq<string>, nat))
    ensures poll <= r.1 <= poll + |ps|
    ensures ps != [] && Cancellation.SeenAt(abort, poll) ==> r == ([], poll + 1)
    ensures !Cancellation.SeenAt(abort, poll + |ps|) ==> r == (AllUnits(ps), poll + |ps|)
    ensures r.0 != AllUnits(ps) ==> r.1 >= 1 && Cancellation.SeenAt(abort, r.1 - 1)
  {
    CollectFlat(ps, ParagraphUnits, abort, poll)
  }

  /** The units of a document's text, with no abort. */
  function Units(text: string): seq<string> {
    AllUnits(Paragraphs(text))
  }

  // ------------------------------------------------------------ packing

  /** One row of the chunk table. `page` is always 0: the text carries no page numbers. */
  datatype Chunk = Chunk(index: nat, document: int, size: nat, page: nat,
                         tokenStart: nat, tokenEnd: nat, text: string)

  /** `ChunkBuilder`: the closed rows, the open chunk's text and token count, the next start and index. */
  datatype Builder = Builder(document: int, rows: seq<Chunk>, current: string, count: nat,
                             start: nat, nextId: nat)

  /** How a run ends: with a value, because the abort flag was seen, or never (the source spins). */
  datatype Outcome<T> = Done(value: T) | Aborted | Spins

  function NewBuilder(document: int): Builder {
    Builder(document, [], [], 0, 0, 0)
  }

  /** `add_text`: `n` is the unit's token count. */
  function AddText(b: Builder, t: string, n: nat): Builder {
    b.(current := if b.current == [] then t else b.current + " " + t, count := b.count + n)
  }

  /** The row `finalize_chunk` writes for the open chunk: its tokens end `count` after its start. */
  function Closed(b: Builder): Chunk {
    Chunk(b.nextId, b.document, b.count, 0, b.start, b.start + b.count, Text.Strip(b.current))
  }

  /** `finalize_chunk`: close the open chunk as a row; the next chunk starts one past its end. */
  function Finalize(b: Builder): Builder {
    b.(rows := b.rows + [Closed(b)], current := [], count := 0, start := b.start + b.count + 1,
       nextId := b.nextId + 1)
  }

  /**
    The packing loop from unit `i` on, polling the abort flag at `poll` before each
    step. A unit that fits within `maxT` joins the open chunk; otherwise an open chunk
    of at least `minT` tokens is closed first; otherwise the unit is taken anyway and
    the chunk closed. With `minT == 0` and an empty open chunk, the close step changes
    nothing and the source repeats it until the flag is raised.
  */
  function Pack(units: seq<string>, tokens: string -> nat, maxT: nat, minT: nat,
                b: Builder, i: nat, abort: Cancellation.Abort, poll: nat): Outcome<Builder>
    requires i <= |units|
    decreases |units| - i, b.count
  {
    if i == |units| then Done(b)
    else if Cancellation.SeenAt(abort, poll) then Aborted
    else
      var n := tokens(units[i]);
      if b.count + n <= maxT then
        Pack(units, tokens, maxT, minT, AddText(b, units[i], n), i + 1, abort, poll + 1)
      else if b.count >= minT then
        if b.count == 0 then (if abort.From? then Aborted else Spins)
        else Pack(units, tokens, maxT, minT, Finalize(b), i, abort, poll + 1)
      else
        Pack(units, tokens, maxT, minT, Finalize(AddText(b, units[i], n)), i + 1, abort, poll + 1)
  }

  /** Close the open chunk, if it holds any text. */
  function Finish(b: Builder): Builder {
    if b.current != [] then Finalize(b) else b
  }

  /**
    A last row whose text counts fewer than `minT` tokens is appended, after a space,
    to the row before it, which gains its token count at the end and is recounted.
  */
  function Fold(rows: seq<Chunk>, tokens: string -> nat, minT: nat): (r: seq<Chunk>)
    ensures |r| == |rows| || |r| == |rows| - 1
    ensures |r| == |rows| ==> r == rows && (|rows| <= 1 || tokens(rows[|rows| - 1].text) >= minT)
    ensures |r| < |rows| ==> |rows| >= 2 && r[..|r| - 1] == rows[..|rows| - 2]
  {
    if |rows| > 1 && tokens(rows[|rows| - 1].text) < minT then
      var last := rows[|rows| - 1];
      var prev := rows[|rows| - 2];
      var text := prev.text + " " + last.text;
      rows[..|rows| - 2] + [prev.(text := text, tokenEnd := prev.tokenEnd + tokens(last.text),
                                  size := tokens(text))]
    else rows
  }

  function MaxTokens(target: nat): nat { target * 11 / 10 }
  function MinTokens(target: nat): nat { target / 2 }

  /** Pack the units, close the open chunk and fold a short last row. */
  function PackUnits(document: int, units: seq<string>, target: nat, tokens: string -> nat,
                     abort: Cancellation.Abort, poll: nat): Outcome<seq<Chunk>>
  {
    match Pack(units, tokens, MaxTokens(target), MinTokens(target), NewBuilder(document), 0, abort, poll)
    case Done(b) => Done(Fold(Finish(b).rows, tokens, MinTokens(target)))
    case Aborted => Aborted
    case Spins => Spins
  }

  /**
    `create_chunks_from_document`: no text gives an empty table; otherwise the units
    are collected and packed, the open chunk closed and a short last row folded.
  */
  function CreateChunks(document: int, text: Option<string>, target: nat, tokens: string -> nat,
                        abort: Cancellation.Abort): Outcome<seq<Chunk>>
  {
    if text.None? then Done([])
    else
      var collected := CollectUnits(Paragraphs(text.value), abort, 0);
      PackUnits(document, collected.0, target, tokens, abort, collected.1)
  }

  // ------------------------------------------------------------ what the units are

  /** No unit contains `c`. */
  predicate Without(xs: seq<string>, c: char) {
    forall i :: 0 <= i < |xs| ==> c !in xs[i]
  }

  /** Units are non-empty and stripped. */
  predicate Clean(xs: seq<string>) {
    forall i :: 0 <= i < |xs| ==> xs[i] != [] && Text.IsStripped(xs[i])
  }

  lemma CleanAppend(a: seq<string>, b: seq<string>, c: char)
    requires Clean(a) && Clean(b) && Without(a, c) && Without(b, c)
    ensures Clean(a + b) && Without(a + b, c)
  {
    forall i | 0 <= i < |a + b| ensures (a + b)[i] != [] && Text.IsStripped((a + b)[i]) && c !in (a + b)[i] {
      if i >= |a| {
        assert (a + b)[i] == b[i - |a|];
      }
    }
  }

  lemma WithoutAppend(a: seq<string>, b: seq<string>, c: char)
    requires Without(a, c) && Without(b, c)
    ensures Without(a + b, c)
  {
    forall i | 0 <= i < |a + b| ensures c !in (a + b)[i] {
      if i >= |a| {
        assert (a + b)[i] == b[i - |a|];
      }
    }
  }

  /** Stripping cannot bring in a character the parts did not have. */
  lemma {:induction false} NonBlankWithout(xs: seq<string>, c: char)
    requires Without(xs, c)
    ensures Without(NonBlank(xs), c)
  {
    if xs != [] {
      var t := Text.Strip(xs[0]);
      Text.StripChars(xs[0]);
      var head: seq<string> := if t == [] then [] else [t];
      assert Without(head, c);
      NonBlankWithout(xs[1..], c);
      WithoutAppend(head, NonBlank(xs[1..]), c);
    }
  }

  /** The lines of a sentence are clean and hold no line feed. */
  lemma LineUnitsClean(sentence: string)
    ensures Clean(LineUnits(sentence)) && Without(LineUnits(sentence), '\n')
  {
    var parts := Text.Split(Text.Strip(sentence), "\n");
    forall i | 0 <= i < |parts| ensures '\n' !in parts[i] {
      Text.ContainsChar(parts[i], '\n');
    }
    NonBlankWithout(parts, '\n');
  }

  lemma {:induction false} FlatMapClean<T>(xs: seq<T>, f: T -> seq<string>, c: char)
    requires forall i :: 0 <= i < |xs| ==> Clean(f(xs[i])) && Without(f(xs[i]), c)
    ensures Clean(FlatMap(xs, f)) && Without(FlatMap(xs, f), c)
    decreases |xs|
  {
    if xs != [] {
      FlatMapClean(xs[1..], f, c);
      CleanAppend(f(xs[0]), FlatMap(xs[1..], f), c);
    }
  }

  /** The units of one paragraph are clean and hold no line feed. */
  lemma ParagraphUnitsClean(p: string)
    ensures Clean(ParagraphUnits(p)) && Without(ParagraphUnits(p), '\n')
  {
    var sentences := SplitSentences(Text.Strip(p));
    forall i | 0 <= i < |sentences|
      ensures Clean(LineUnits(sentences[i])) && Without(LineUnits(sentences[i]), '\n')
    {
      LineUnitsClean(sentences[i]);
    }
    FlatMapClean(sentences, LineUnits, '\n');
  }

  /** Every unit is non-empty, stripped and a single line. */
  lemma AllUnitsClean(ps: seq<string>)
    ensures Clean(AllUnits(ps)) && Without(AllUnits(ps), '\n')
  {
    forall i | 0 <= i < |ps|
      ensures Clean(ParagraphUnits(ps[i])) && Without(ParagraphUnits(ps[i]), '\n')
    {
      ParagraphUnitsClean(ps[i]);
    }
    FlatMapClean(ps, ParagraphUnits, '\n');
  }

  /** The units collected before an abort are clean too. */
  lemma {:induction false} CollectUnitsClean(ps: seq<string>, abort: Cancellation.Abort, poll: nat)
    ensures Clean(CollectUnits(ps, abort, poll).0)
    decreases |ps|
  {
    if ps != [] && !Cancellation.SeenAt(abort, poll) {
      ParagraphUnitsClean(ps[0]);
      CollectUnitsClean(ps[1..], abort, poll + 1);
      assert Without(CollectUnits(ps[1..], abort, poll + 1).0, '\n') by {
        CollectUnitsWithout(ps[1..], abort, poll + 1);
      }
      CleanAppend(ParagraphUnits(ps[0]), CollectUnits(ps[1..], abort, poll + 1).0, '\n');
    }
  }

  lemma {:induction false} CollectUnitsWithout(ps: seq<string>, abort: Cancellation.Abort, poll: nat)
    ensures Without(CollectUnits(ps, abort, poll).0, '\n')
    decreases |ps|
  {
    if ps != [] && !Cancellation.SeenAt(abort, poll) {
      ParagraphUnitsClean(ps[0]);
      CollectUnitsWithout(ps[1..], abort, poll + 1);
      WithoutAppend(ParagraphUnits(ps[0]), CollectUnits(ps[1..], abort, poll + 1).0, '\n');
    }
  }

  /** Clean strings survive `NonBlank` unchanged. */
  lemma {:induction false} NonBlankClean(xs: seq<string>)
    requires Clean(xs)
    ensures NonBlank(xs) == xs
  {
    if xs != [] {
      Text.StripStripped(xs[0]);
      NonBlankClean(xs[1..]);
      assert [xs[0]] + xs[1..] == xs;
    }
  }

  /** No sentence break anywhere in `u`. */
  predicate NoBreak(u: string) {
    forall k: nat :: k < |u| ==> !BreakAt(u, k)
  }

  /** A clean line with no sentence break inside is its own single unit. */
  lemma ParagraphUnitsSingle(u: string)
    requires u != [] && Text.IsStripped(u) && '\n' !in u
    requires NoBreak(u)
    ensures ParagraphUnits(u) == [u]
  {
    Text.StripStripped(u);
    assert FirstBreak(u, 0) == |u|;
    assert SplitSentences(u) == [u];
    Text.SplitJoin([u], "\n");
    assert Text.Split(u, "\n") == [u];
    NonBlankClean([u]);
    assert LineUnits(u) == [u];
    assert SentenceUnits([u]) == LineUnits(u) + FlatMap([], LineUnits);
  }

  /** A list each of whose elements `f` maps to itself alone is its own flattening. */
  lemma {:induction false} FlatMapSingles(xs: seq<string>, f: string -> seq<string>)
    requires forall i :: 0 <= i < |xs| ==> f(xs[i]) == [xs[i]]
    ensures FlatMap(xs, f) == xs
    decreases |xs|
  {
    if xs != [] {
      FlatMapSingles(xs[1..], f);
      assert [xs[0]] + xs[1..] == xs;
    }
  }

  lemma AllUnitsSingles(us: seq<string>)
    requires Clean(us) && Without(us, '\n')
    requires forall i :: 0 <= i < |us| ==> NoBreak(us[i])
    ensures AllUnits(us) == us
  {
    forall i | 0 <= i < |us| ensures ParagraphUnits(us[i]) == [us[i]] {
      ParagraphUnitsSingle(us[i]);
    }
    FlatMapSingles(us, ParagraphUnits);
  }

  /**
    Units written one per paragraph come back as they were, provided each is clean,
    a single line, and has no sentence break inside.
  */
  lemma UnitsRoundTrip(us: seq<string>)
    requires Clean(us) && Without(us, '\n')
    requires forall i :: 0 <= i < |us| ==> NoBreak(us[i])
    ensures Units(Text.Join(us, "\n\n")) == us
  {
    if us == [] {
      assert Text.Split([], "\n\n") == [[]];
      assert Paragraphs([]) == [];
    } else {
      Text.SplitJoin(us, "\n\n");
      NonBlankClean(us);
      AllUnitsSingles(us);
    }
  }

  // ------------------------------------------------------------ what packing keeps

  /** The texts of the rows, in order. */
  function Texts(rows: seq<Chunk>): (ts: seq<string>)
    ensures |ts| == |rows|
  {
    seq(|rows|, j requires 0 <= j < |rows| => rows[j].text)
  }

  /** The open chunk's text, as a list of at most one. */
  function Open(b: Builder): seq<string> {
    if b.current == [] then [] else [b.current]
  }

  /** Rows numbered by position, all of `document`, page 0, with clean text. */
  predicate Numbered(rows: seq<Chunk>, document: int) {
    forall j :: 0 <= j < |rows| ==>
      && rows[j].index == j && rows[j].document == document && rows[j].page == 0
      && rows[j].text != [] && Text.IsStripped(rows[j].text)
  }

  /** The first row starts at token 0 and each next row one past the previous row's end. */
  predicate Chained(rows: seq<Chunk>) {
    && (|rows| > 0 ==> rows[0].tokenStart == 0)
    && forall j :: 0 <= j < |rows| - 1 ==> rows[j + 1].tokenStart == rows[j].tokenEnd + 1
  }

  /** Each of the first `k` rows ends `size` tokens after its start. */
  predicate Measured(rows: seq<Chunk>, k: int) {
    forall j :: 0 <= j < k && j < |rows| ==> rows[j].tokenEnd == rows[j].tokenStart + rows[j].size
  }

  /** Each of the first `k` rows holds at least `minT` tokens. */
  predicate Filled(rows: seq<Chunk>, k: int, minT: nat) {
    forall j :: 0 <= j < k && j < |rows| ==> rows[j].size >= minT
  }

  /** The builder's bookkeeping agrees with its rows. */
  predicate BuilderOk(b: Builder, document: int) {
    && b.document == document
    && Numbered(b.rows, document) && Chained(b.rows) && Measured(b.rows, |b.rows|)
    && b.nextId == |b.rows|
    && b.start == (if b.rows == [] then 0 else b.rows[|b.rows| - 1].tokenEnd + 1)
    && Text.IsStripped(b.current)
    && (b.current == [] ==> b.count == 0)
  }

  /** The rows and the open chunk, joined with spaces, spell `done` joined with spaces. */
  predicate Spells(b: Builder, done: seq<string>) {
    Text.Join(Texts(b.rows) + Open(b), " ") == Text.Join(done, " ")
  }

  /** Extending the last part by a space and `u` extends the joined text the same way. */
  lemma ExtendJoin(ts: seq<string>, cur: string, u: string)
    ensures Text.Join(ts + [cur + " " + u], " ") == Text.Join(ts + [cur], " ") + " " + u
  {
    Text.JoinSnoc(ts, cur + " " + u, " ");
    Text.JoinSnoc(ts, cur, " ");
  }

  lemma AppendUnitJoin(ts: seq<string>, cur: string, done: seq<string>, u: string)
    requires forall i :: 0 <= i < |ts| ==> ts[i] != []
    requires forall i :: 0 <= i < |done| ==> done[i] != []
    requires cur != [] ==> Text.Join(ts + [cur], " ") == Text.Join(done, " ")
    requires cur == [] ==> Text.Join(ts, " ") == Text.Join(done, " ")
    ensures Text.Join(ts + [if cur == [] then u else cur + " " + u], " ") == Text.Join(done + [u], " ")
  {
    Text.JoinSnoc(done, u, " ");
    Text.JoinEmpty(done, " ");
    if cur == [] {
      Text.JoinSnoc(ts, u, " ");
      Text.JoinEmpty(ts, " ");
    } else {
      ExtendJoin(ts, cur, u);
      var all := ts + [cur];
      assert forall i :: 0 <= i < |all| ==> all[i] != [];
      Text.JoinEmpty(all, " ");
    }
  }

  lemma AddTextOk(b: Builder, u: string, n: nat, done: seq<string>, document: int)
    requires BuilderOk(b, document) && Spells(b, done)
    requires u != [] && Text.IsStripped(u)
    requires forall i :: 0 <= i < |done| ==> done[i] != []
    ensures BuilderOk(AddText(b, u, n), document)
    ensures Spells(AddText(b, u, n), done + [u])
    ensures AddText(b, u, n).current != [] && AddText(b, u, n).rows == b.rows
  {
    var b' := AddText(b, u, n);
    if b.current != [] {
      assert b'.current[0] == b.current[0];
      assert b'.current[|b'.current| - 1] == u[|u| - 1];
    }
    var ts := Texts(b.rows);
    forall i | 0 <= i < |ts| ensures ts[i] != [] {
      assert ts[i] == b.rows[i].text;
    }
    assert Texts(b.rows) + Open(b) == if b.current == [] then ts else ts + [b.current];
    AppendUnitJoin(ts, b.current, done, u);
  }

  /** One more row that follows on from the last keeps the rows numbered, chained and measured. */
  lemma RowsSnoc(rows: seq<Chunk>, row: Chunk, document: int)
    requires Numbered(rows, document) && Chained(rows) && Measured(rows, |rows|)
    requires row.index == |rows| && row.document == document && row.page == 0
    requires row.text != [] && Text.IsStripped(row.text)
    requires row.tokenEnd == row.tokenStart + row.size
    requires row.tokenStart == if rows == [] then 0 else rows[|rows| - 1].tokenEnd + 1
    ensures Numbered(rows + [row], document) && Chained(rows + [row]) && Measured(rows + [row], |rows| + 1)
    ensures Texts(rows + [row]) == Texts(rows) + [row.text]
  {
    var rs := rows + [row];
    forall j | 0 <= j < |rows| ensures rs[j] == rows[j] {
    }
  }

  lemma FinalizeRows(b: Builder, document: int)
    requires BuilderOk(b, document) && b.current != []
    ensures BuilderOk(Finalize(b), document)
    ensures Texts(Finalize(b).rows) == Texts(b.rows) + [b.current]
  {
    assert Closed(b).text == b.current by {
      Text.StripStripped(b.current);
    }
    RowsSnoc(b.rows, Closed(b), document);
  }

  lemma FinalizeOk(b: Builder, done: seq<string>, document: int)
    requires BuilderOk(b, document) && Spells(b, done) && b.current != []
    ensures BuilderOk(Finalize(b), document) && Spells(Finalize(b), done)
  {
    FinalizeRows(b, document);
    var b' := Finalize(b);
    assert Open(b) == [b.current] && Open(b') == [];
    assert Texts(b'.rows) + Open(b') == Texts(b.rows) + Open(b);
  }

  lemma FilledSnoc(rows: seq<Chunk>, row: Chunk, minT: nat)
    requires Filled(rows, |rows|, minT) && row.size >= minT
    ensures Filled(rows + [row], |rows| + 1, minT)
  {
    var rs := rows + [row];
    forall j | 0 <= j < |rows| ensures rs[j] == rows[j] {
    }
  }

  /** What holds between packing steps, after `i` units. */
  predicate PackInv(units: seq<string>, b: Builder, i: nat, document: int, minT: nat)
    requires i <= |units|
  {
    BuilderOk(b, document) && Filled(b.rows, |b.rows|, minT) && Spells(b, units[..i])
  }

  lemma StepAdd(units: seq<string>, b: Builder, i: nat, n: nat, document: int, minT: nat)
    requires i < |units| && Clean(units) && PackInv(units, b, i, document, minT)
    ensures PackInv(units, AddText(b, units[i], n), i + 1, document, minT)
    ensures AddText(b, units[i], n).current != []
  {
    var done := units[..i];
    assert units[..i + 1] == done + [units[i]];
    assert forall k :: 0 <= k < |done| ==> done[k] == units[k];
    AddTextOk(b, units[i], n, done, document);
  }

  lemma StepClose(units: seq<string>, b: Builder, i: nat, document: int, minT: nat)
    requires i <= |units| && PackInv(units, b, i, document, minT)
    requires b.current != [] && b.count >= minT
    ensures PackInv(units, Finalize(b), i, document, minT)
  {
    FinalizeOk(b, units[..i], document);
    FilledSnoc(b.rows, Closed(b), minT);
  }

  /**
    Packing keeps the builder's bookkeeping, closes only rows of at least `minT` tokens,
    and ends with rows and open chunk spelling all the units.
  */
  lemma {:induction false} PackOk(units: seq<string>, tokens: string -> nat, maxT: nat, minT: nat,
                                  b: Builder, i: nat, abort: Cancellation.Abort, poll: nat, document: int)
    requires i <= |units| && Clean(units) && minT <= maxT
    requires PackInv(units, b, i, document, minT)
    ensures var r := Pack(units, tokens, maxT, minT, b, i, abort, poll);
      r.Done? ==> PackInv(units, r.value, |units|, document, minT)
    decreases |units| - i, b.count
  {
    if i < |units| && !Cancellation.SeenAt(abort, poll) {
      var n := tokens(units[i]);
      if b.count + n <= maxT {
        StepAdd(units, b, i, n, document, minT);
        PackOk(units, tokens, maxT, minT, AddText(b, units[i], n), i + 1, abort, poll + 1, document);
      } else if b.count >= minT {
        if b.count != 0 {
          StepClose(units, b, i, document, minT);
          PackOk(units, tokens, maxT, minT, Finalize(b), i, abort, poll + 1, document);
        }
      } else {
        var b1 := AddText(b, units[i], n);
        StepAdd(units, b, i, n, document, minT);
        StepClose(units, b1, i + 1, document, minT);
        PackOk(units, tokens, maxT, minT, Finalize(b1), i + 1, abort, poll + 1, document);
      }
    }
  }

  /**
    How packing ends: it aborts only when a flag is raised, spins only with `minT == 0`
    and no flag, and when it finishes, it finishes exactly as it would with no flag.
  */
  lemma PackOutcome(units: seq<string>, tokens: string -> nat, maxT: nat, minT: nat,
                    b: Builder, i: nat, abort: Cancellation.Abort, poll: nat, poll': nat)
    requires i <= |units|
    ensures var r := Pack(units, tokens, maxT, minT, b, i, abort, poll);
      && (r.Aborted? ==> abort.From?)
      && (r.Spins? ==> minT == 0 && abort == Cancellation.Never)
      && (r.Done? ==> Pack(units, tokens, maxT, minT, b, i, Cancellation.Never, poll') == r)
  {
    PackAborts(units, tokens, maxT, minT, b, i, abort, poll);
    PackSpins(units, tokens, maxT, minT, b, i, abort, poll);
    PackIgnoresClock(units, tokens, maxT, minT, b, i, abort, poll, poll');
  }

  /** Only a raised flag aborts the packing loop. */
  lemma {:induction false} PackAborts(units: seq<string>, tokens: string -> nat, maxT: nat, minT: nat,
                                      b: Builder, i: nat, abort: Cancellation.Abort, poll: nat)
    requires i <= |units|
    ensures Pack(units, tokens, maxT, minT, b, i, abort, poll).Aborted? ==> abort.From?
    decreases |units| - i, b.count
  {
    if i < |units| && !Cancellation.SeenAt(abort, poll) {
      var n := tokens(units[i]);
      if b.count + n <= maxT {
        PackAborts(units, tokens, maxT, minT, AddText(b, units[i], n), i + 1, abort, poll + 1);
      } else if b.count >= minT {
        if b.count != 0 {
          PackAborts(units, tokens, maxT, minT, Finalize(b), i, abort, poll + 1);
        }
      } else {
        PackAborts(units, tokens, maxT, minT, Finalize(AddText(b, units[i], n)), i + 1, abort, poll + 1);
      }
    }
  }

  /**
    A row of `size` tokens could have been closed by force: some unit of `tokens(u)`
    tokens, taken while fewer than `minT` were open, brought it to that size.
  */
  predicate Forced(size: nat, units: seq<string>, tokens: string -> nat, minT: nat) {
    exists m :: 0 <= m < |units| && tokens(units[m]) <= size < minT + tokens(units[m])
  }

  /** Each of the first `k` rows holds at most `maxT` tokens, or was closed by force. */
  predicate Capped(rows: seq<Chunk>, k: int, units: seq<string>, tokens: string -> nat, maxT: nat, minT: nat) {
    forall j :: 0 <= j < k && j < |rows| ==> rows[j].size <= maxT || Forced(rows[j].size, units, tokens, minT)
  }

  /** The upper bound between packing steps: the open chunk fits, every closed row is capped. */
  predicate PackBound(units: seq<string>, tokens: string -> nat, b: Builder, maxT: nat, minT: nat) {
    b.count <= maxT && Capped(b.rows, |b.rows|, units, tokens, maxT, minT)
  }

  lemma CappedSnoc(rows: seq<Chunk>, row: Chunk, units: seq<string>, tokens: string -> nat, maxT: nat, minT: nat)
    requires Capped(rows, |rows|, units, tokens, maxT, minT)
    requires row.size <= maxT || Forced(row.size, units, tokens, minT)
    ensures Capped(rows + [row], |rows| + 1, units, tokens, maxT, minT)
  {
    var rs := rows + [row];
    forall j | 0 <= j < |rows| ensures rs[j] == rows[j] {
    }
  }

  /**
    Packing keeps the open chunk within `maxT` tokens, and closes a larger row only by
    force: when the unit that did not fit was taken while fewer than `minT` were open.
  */
  lemma {:induction false} PackCapped(units: seq<string>, tokens: string -> nat, maxT: nat, minT: nat,
                                      b: Builder, i: nat, abort: Cancellation.Abort, poll: nat)
    requires i <= |units| && PackBound(units, tokens, b, maxT, minT)
    ensures var r := Pack(units, tokens, maxT, minT, b, i, abort, poll);
      r.Done? ==> PackBound(units, tokens, r.value, maxT, minT)
    decreases |units| - i, b.count
  {
    if i < |units| && !Cancellation.SeenAt(abort, poll) {
      var n := tokens(units[i]);
      if b.count + n <= maxT {
        PackCapped(units, tokens, maxT, minT, AddText(b, units[i], n), i + 1, abort, poll + 1);
      } else if b.count >= minT {
        if b.count != 0 {
          CappedSnoc(b.rows, Closed(b), units, tokens, maxT, minT);
          PackCapped(units, tokens, maxT, minT, Finalize(b), i, abort, poll + 1);
        }
      } else {
        var b1 := AddText(b, units[i], n);
        assert Forced(Closed(b1).size, units, tokens, minT) by {
          assert tokens(units[i]) <= Closed(b1).size < minT + tokens(units[i]);
        }
        CappedSnoc(b1.rows, Closed(b1), units, tokens, maxT, minT);
        PackCapped(units, tokens, maxT, minT, Finalize(b1), i + 1, abort, poll + 1);
      }
    }
  }

  /** The loop spins only when `minT` is 0 and no flag can stop it. */
  lemma {:induction false} PackSpins(units: seq<string>, tokens: string -> nat, maxT: nat, minT: nat,
                                     b: Builder, i: nat, abort: Cancellation.Abort, poll: nat)
    requires i <= |units|
    ensures Pack(units, tokens, maxT, minT, b, i, abort, poll).Spins? ==> minT == 0 && abort == Cancellation.Never
    decreases |units| - i, b.count
  {
    if i < |units| && !Cancellation.SeenAt(abort, poll) {
      var n := tokens(units[i]);
      if b.count + n <= maxT {
        PackSpins(units, tokens, maxT, minT, AddText(b, units[i], n), i + 1, abort, poll + 1);
      } else if b.count >= minT {
        if b.count != 0 {
          PackSpins(units, tokens, maxT, minT, Finalize(b), i, abort, poll + 1);
        }
      } else {
        PackSpins(units, tokens, maxT, minT, Finalize(AddText(b, units[i], n)), i + 1, abort, poll + 1);
      }
    }
  }

  /** A run that completes is the run without an abort flag, whatever the poll count. */
  lemma {:induction false} PackIgnoresClock(units: seq<string>, tokens: string -> nat, maxT: nat, minT: nat,
                                            b: Builder, i: nat, abort: Cancellation.Abort, poll: nat, poll': nat)
    requires i <= |units|
    ensures var r := Pack(units, tokens, maxT, minT, b, i, abort, poll);
      r.Done? ==> Pack(units, tokens, maxT, minT, b, i, Cancellation.Never, poll') == r
    decreases |units| - i, b.count
  {
    if i < |units| && !Cancellation.SeenAt(abort, poll) {
      var n := tokens(units[i]);
      assert !Cancellation.SeenAt(Cancellation.Never, poll');
      if b.count + n <= maxT {
        var b' := AddText(b, units[i], n);
        assert Pack(units, tokens, maxT, minT, b, i, abort, poll) == Pack(units, tokens, maxT, minT, b', i + 1, abort, poll + 1);
        assert Pack(units, tokens, maxT, minT, b, i, Cancellation.Never, poll')
          == Pack(units, tokens, maxT, minT, b', i + 1, Cancellation.Never, poll' + 1);
        PackIgnoresClock(units, tokens, maxT, minT, b', i + 1, abort, poll + 1, poll' + 1);
      } else if b.count >= minT {
        if b.count != 0 {
          var b' := Finalize(b);
          assert Pack(units, tokens, maxT, minT, b, i, abort, poll) == Pack(units, tokens, maxT, minT, b', i, abort, poll + 1);
          assert Pack(units, tokens, maxT, minT, b, i, Cancellation.Never, poll')
            == Pack(units, tokens, maxT, minT, b', i, Cancellation.Never, poll' + 1);
          PackIgnoresClock(units, tokens, maxT, minT, b', i, abort, poll + 1, poll' + 1);
        }
      } else {
        var b' := Finalize(AddText(b, units[i], n));
        assert Pack(units, tokens, maxT, minT, b, i, abort, poll) == Pack(units, tokens, maxT, minT, b', i + 1, abort, poll + 1);
        assert Pack(units, tokens, maxT, minT, b, i, Cancellation.Never, poll')
          == Pack(units, tokens, maxT, minT, b', i + 1, Cancellation.Never, poll' + 1);
        PackIgnoresClock(units, tokens, maxT, minT, b', i + 1, abort, poll + 1, poll' + 1);
      }
    }
  }

  /** Closing the open chunk at the end: every row but the last holds at least `minT` tokens. */
  lemma FinishRows(units: seq<string>, b: Builder, document: int, minT: nat)
    requires PackInv(units, b, |units|, document, minT)
    ensures var rows := Finish(b).rows;
      && Numbered(rows, document) && Chained(rows) && Measured(rows, |rows|)
      && Filled(rows, |rows| - 1, minT)
  {
    if b.current != [] {
      FinalizeRows(b, document);
      var rows := Finish(b).rows;
      assert rows == b.rows + [Closed(b)];
      forall j | 0 <= j < |rows| - 1 ensures rows[j].size >= minT {
        assert rows[j] == b.rows[j];
      }
    }
  }

  /** Closing the open chunk at the end leaves the rows spelling all the units. */
  lemma FinishText(units: seq<string>, b: Builder, document: int, minT: nat)
    requires PackInv(units, b, |units|, document, minT)
    ensures Text.Join(Texts(Finish(b).rows), " ") == Text.Join(units, " ")
  {
    assert units[..|units|] == units;
    if b.current != [] {
      FinalizeOk(b, units, document);
      assert Texts(Finish(b).rows) + Open(Finish(b)) == Texts(Finish(b).rows);
    } else {
      assert Texts(b.rows) + Open(b) == Texts(b.rows);
    }
  }

  /** Closing the open chunk at the end closes it within `maxT` tokens. */
  lemma FinishCapped(units: seq<string>, tokens: string -> nat, b: Builder, maxT: nat, minT: nat)
    requires PackBound(units, tokens, b, maxT, minT)
    ensures Capped(Finish(b).rows, |Finish(b).rows|, units, tokens, maxT, minT)
  {
    if b.current != [] {
      CappedSnoc(b.rows, Closed(b), units, tokens, maxT, minT);
    }
  }

  /**
    The upper bound on a table: every row holds at most `maxT` tokens or was closed by
    force, except that a last row recounted from its own text, as folding leaves the
    row it merged into, may hold any number.
  */
  predicate TableCapped(rows: seq<Chunk>, units: seq<string>, tokens: string -> nat, maxT: nat, minT: nat) {
    && Capped(rows, |rows| - 1, units, tokens, maxT, minT)
    && (|rows| > 0 ==> Capped(rows, |rows|, units, tokens, maxT, minT)
                       || rows[|rows| - 1].size == tokens(rows[|rows| - 1].text))
  }

  /** Folding keeps every row but the merged one within the bound. */
  lemma FoldCapped(rows: seq<Chunk>, units: seq<string>, tokens: string -> nat, maxT: nat, minT: nat)
    requires Capped(rows, |rows|, units, tokens, maxT, minT)
    ensures var r := Fold(rows, tokens, minT);
      && TableCapped(r, units, tokens, maxT, minT)
      && (|r| == |rows| ==> Capped(r, |r|, units, tokens, maxT, minT))
  {
    var r := Fold(rows, tokens, minT);
    if |r| < |rows| {
      forall j | 0 <= j < |r| - 1 ensures r[j] == rows[j] {
      }
    }
  }

  /** Folding keeps the rows numbered and chained. */
  lemma FoldRows(rows: seq<Chunk>, tokens: string -> nat, minT: nat, document: int)
    requires Numbered(rows, document) && Chained(rows) && Measured(rows, |rows|)
    requires Filled(rows, |rows| - 1, minT)
    ensures var r := Fold(rows, tokens, minT);
      && Numbered(r, document) && Chained(r) && Measured(r, |r| - 1) && Filled(r, |r| - 1, minT)
  {
    var r := Fold(rows, tokens, minT);
    if |r| < |rows| {
      var p := rows[|rows| - 2];
      var l := rows[|rows| - 1];
      var merged := r[|r| - 1];
      assert merged.text == p.text + " " + l.text;
      assert merged.text[0] == p.text[0];
      assert merged.text[|merged.text| - 1] == l.text[|l.text| - 1];
      forall j | 0 <= j < |r| - 1 ensures r[j] == rows[j] {
      }
    }
  }

  /** Folding leaves the joined text unchanged. */
  lemma FoldText(rows: seq<Chunk>, tokens: string -> nat, minT: nat)
    ensures Text.Join(Texts(Fold(rows, tokens, minT)), " ") == Text.Join(Texts(rows), " ")
  {
    var r := Fold(rows, tokens, minT);
    if |r| < |rows| {
      var pre := rows[..|rows| - 2];
      var p := rows[|rows| - 2].text;
      var l := rows[|rows| - 1].text;
      assert Texts(rows) == Texts(pre) + [p] + [l];
      assert Texts(r) == Texts(pre) + [p + " " + l];
      ExtendJoin(Texts(pre), p, l);
      Text.JoinSnoc(Texts(pre) + [p], l, " ");
    }
  }

  // ------------------------------------------------------------ the chunk table

  /** An empty builder satisfies the packing invariant before any unit. */
  lemma StartOk(units: seq<string>, document: int, minT: nat)
    ensures PackInv(units, NewBuilder(document), 0, document, minT)
  {
    assert Texts([]) + Open(NewBuilder(document)) == [];
    assert units[..0] == [];
  }

  /** The rows of a packed table, for clean units. */
  lemma PackUnitsRows(document: int, units: seq<string>, target: nat, tokens: string -> nat,
                      abort: Cancellation.Abort, poll: nat)
    requires Clean(units)
    ensures var r := PackUnits(document, units, target, tokens, abort, poll);
      r.Done? ==>
        && Numbered(r.value, document) && Chained(r.value)
        && Measured(r.value, |r.value| - 1) && Filled(r.value, |r.value| - 1, MinTokens(target))
        && TableCapped(r.value, units, tokens, MaxTokens(target), MinTokens(target))
  {
    var minT := MinTokens(target);
    var maxT := MaxTokens(target);
    StartOk(units, document, minT);
    PackOk(units, tokens, maxT, minT, NewBuilder(document), 0, abort, poll, document);
    PackCapped(units, tokens, maxT, minT, NewBuilder(document), 0, abort, poll);
    var p := Pack(units, tokens, maxT, minT, NewBuilder(document), 0, abort, poll);
    if p.Done? {
      FinishRows(units, p.value, document, minT);
      FoldRows(Finish(p.value).rows, tokens, minT, document);
      FinishCapped(units, tokens, p.value, maxT, minT);
      FoldCapped(Finish(p.value).rows, units, tokens, maxT, minT);
    }
  }

  /** The texts of a packed table spell its units. */
  lemma PackUnitsText(document: int, units: seq<string>, target: nat, tokens: string -> nat,
                      abort: Cancellation.Abort, poll: nat)
    requires Clean(units)
    ensures var r := PackUnits(document, units, target, tokens, abort, poll);
      r.Done? ==> Text.Join(Texts(r.value), " ") == Text.Join(units, " ")
  {
    var minT := MinTokens(target);
    var maxT := MaxTokens(target);
    StartOk(units, document, minT);
    PackOk(units, tokens, maxT, minT, NewBuilder(document), 0, abort, poll, document);
    var p := Pack(units, tokens, maxT, minT, NewBuilder(document), 0, abort, poll);
    if p.Done? {
      FinishText(units, p.value, document, minT);
      FoldText(Finish(p.value).rows, tokens, minT);
    }
  }

  /** No units give an empty table; a flag already raised abandons any other run. */
  lemma PackUnitsSeen(document: int, units: seq<string>, target: nat, tokens: string -> nat,
                      abort: Cancellation.Abort, poll: nat)
    ensures units == [] ==> PackUnits(document, units, target, tokens, abort, poll) == Done([])
    ensures units != [] && Cancellation.SeenAt(abort, poll) ==>
              PackUnits(document, units, target, tokens, abort, poll) == Aborted
  {
  }

  /** Units cut short by an abort give no rows at all, so any rows spell the full units. */
  lemma PackUnitsOf(document: int, units: seq<string>, full: seq<string>, target: nat,
                    tokens: string -> nat, abort: Cancellation.Abort, poll: nat)
    requires Clean(units)
    requires units != full ==> Cancellation.SeenAt(abort, poll)
    ensures var r := PackUnits(document, units, target, tokens, abort, poll);
      r.Done? && (r.value != [] || abort == Cancellation.Never) ==>
        Text.Join(Texts(r.value), " ") == Text.Join(full, " ")
  {
    PackUnitsText(document, units, target, tokens, abort, poll);
    PackUnitsSeen(document, units, target, tokens, abort, poll);
  }

  /** The rows packed from the paragraphs' units spell those units, unless an abort left no rows. */
  lemma CollectText(document: int, ps: seq<string>, target: nat, tokens: string -> nat,
                    abort: Cancellation.Abort)
    ensures var c := CollectUnits(ps, abort, 0);
      var r := PackUnits(document, c.0, target, tokens, abort, c.1);
      r.Done? && (r.value != [] || abort == Cancellation.Never) ==>
        Text.Join(Texts(r.value), " ") == Text.Join(AllUnits(ps), " ")
  {
    var c := CollectUnits(ps, abort, 0);
    CollectUnitsClean(ps, abort, 0);
    PackUnitsOf(document, c.0, AllUnits(ps), target, tokens, abort, c.1);
  }

  /**
    The table's rows are numbered 0, 1, ... and belong to the document; their token
    positions run on from 0, each row starting one past the previous row's end; every
    row but the last ends `size` tokens after its start and holds at least the minimum
    (`target / 2`) tokens; every text is non-empty and stripped; and every row holds at
    most the maximum (`11 * target / 10`) tokens unless it was closed by force, save a
    last row that folding merged and recounted.
  */
  lemma CreateChunksRows(document: int, text: Option<string>, target: nat, tokens: string -> nat,
                         abort: Cancellation.Abort)
    ensures var r := CreateChunks(document, text, target, tokens, abort);
      r.Done? ==>
        && Numbered(r.value, document) && Chained(r.value)
        && Measured(r.value, |r.value| - 1) && Filled(r.value, |r.value| - 1, MinTokens(target))
        && (text.Some? ==> TableCapped(r.value, Units(text.value), tokens, MaxTokens(target), MinTokens(target)))
  {
    if text.Some? {
      var ps := Paragraphs(text.value);
      var c := CollectUnits(ps, abort, 0);
      CollectUnitsClean(ps, abort, 0);
      PackUnitsRows(document, c.0, target, tokens, abort, c.1);
      PackUnitsSeen(document, c.0, target, tokens, abort, c.1);
      if c.0 != AllUnits(ps) {
        assert Cancellation.SeenAt(abort, c.1);
      }
    }
  }

  /**
    The rows' texts, joined with spaces, are the document's units joined with spaces:
    nothing is lost, repeated or reordered. This holds whenever no abort intervened,
    and whenever the table has any row at all.
  */
  lemma CreateChunksText(document: int, text: string, target: nat, tokens: string -> nat,
                         abort: Cancellation.Abort)
    ensures var r := CreateChunks(document, Some(text), target, tokens, abort);
      r.Done? && (r.value != [] || abort == Cancellation.Never) ==>
        Text.Join(Texts(r.value), " ") == Text.Join(Units(text), " ")
  {
    CollectText(document, Paragraphs(text), target, tokens, abort);
  }

  /**
    The abort flag: with no flag and a target of at least 2 the table is always produced;
    a flag raised before the first poll gives an empty table; the run is abandoned only
    if a flag is raised and spins only for a target below 2 with no flag; and a non-empty
    table is exactly the one a run without the flag produces.
  */
  lemma CreateChunksAbort(document: int, text: Option<string>, target: nat, tokens: string -> nat,
                          abort: Cancellation.Abort)
    ensures var r := CreateChunks(document, text, target, tokens, abort);
      && (abort == Cancellation.Never && target >= 2 ==> r.Done?)
      && (Cancellation.SeenAt(abort, 0) ==> r == Done([]))
      && (r.Aborted? ==> abort.From?)
      && (r.Spins? ==> abort == Cancellation.Never && target < 2)
      && (r.Done? && r.value != [] ==> r == CreateChunks(document, text, target, tokens, Cancellation.Never))
  {
    if text.Some? {
      var ps := Paragraphs(text.value);
      var c := CollectUnits(ps, abort, 0);
      var c' := CollectUnits(ps, Cancellation.Never, 0);
      var minT := MinTokens(target);
      var maxT := MaxTokens(target);
      PackOutcome(c.0, tokens, maxT, minT, NewBuilder(document), 0, abort, c.1, c'.1);
    }
  }
}
