/**
 * The Java front end's tokenizer: it cuts a source file into function
 * fragments at the start offsets of successive matches of a splitter regular
 * expression, and tags every non-empty fragment with the number of newline
 * characters that precede it in the file.
 *
 * The regular-expression matcher is not modelled; it is represented by the
 * sequence of start offsets of the matches it finds, in the order it finds them.
 */
module JavaFrontend {

  /** A function fragment: the line it starts on (counted from 0) and its text. */
  datatype Function = Function(baseLine: nat, contents: string)

  // ---------------------------------------------------------------------------
  // Specification functions
  // ---------------------------------------------------------------------------

  /** The number of positions of `h` that hold `c`, counted from the end. */
  function Occurrences(h: string, c: char): (n: nat)
    ensures n <= |h|
    ensures h == [] ==> n == 0
  {
    if h == [] then 0
    else Occurrences(h[..|h| - 1], c) + (if h[|h| - 1] == c then 1 else 0)
  }

  /** The indices of `h` that hold `c`: the reference definition of a count. */
  ghost function IndicesOf(h: string, c: char): set<nat>
  {
    set i: nat | i < |h| && h[i] == c
  }

  /** The number of line breaks in `s`. */
  function NewlineCount(s: string): nat
  {
    Occurrences(s, '\n')
  }

  /** The text of a sequence of fragments, joined in order. */
  function Concat(fs: seq<Function>): string
  {
    if fs == [] then [] else fs[0].contents + Concat(fs[1..])
  }

  /** `x` is 0 or the offset at which the text of some non-empty prefix of `fs` ends. */
  predicate IsCut(fs: seq<Function>, x: nat)
  {
    if fs == [] then x == 0 else IsCut(fs[..|fs| - 1], x) || x == |Concat(fs)|
  }

  /** `x` is one of the first `i` match starts. */
  predicate AmongFirst(starts: seq<nat>, i: nat, x: nat)
    requires i <= |starts|
  {
    i > 0 && (AmongFirst(starts, i - 1, x) || starts[i - 1] == x)
  }

  /** What the abstracted matcher may report: start offsets in order, each within the file. */
  predicate MatchStarts(file: string, starts: seq<nat>)
  {
    && (forall i, j :: 0 <= i < j < |starts| ==> starts[i] <= starts[j])
    && (forall i :: 0 <= i < |starts| ==> starts[i] <= |file|)
  }

  /** The start offset of the current fragment once `i` matches have been consumed. */
  function LastStart(starts: seq<nat>, i: nat): nat
    requires i <= |starts|
  {
    if i == 0 then 0 else starts[i - 1]
  }

  /** The fragment `file[from..to]` tagged with its base line, or nothing when it is empty. */
  function Piece(file: string, from: nat, to: nat): seq<Function>
    requires from <= to <= |file|
  {
    if from == to then [] else [Function(NewlineCount(file[..from]), file[from..to])]
  }

  /** The fragments emitted after the first `i` matches. */
  function PiecesBefore(file: string, starts: seq<nat>, i: nat): seq<Function>
    requires MatchStarts(file, starts) && i <= |starts|
  {
    if i == 0 then []
    else PiecesBefore(file, starts, i - 1) + Piece(file, LastStart(starts, i - 1), starts[i - 1])
  }

  /** All fragments of `file`: those cut at the matches, then the tail after the last match. */
  function Tokenized(file: string, starts: seq<nat>): seq<Function>
    requires MatchStarts(file, starts)
  {
    PiecesBefore(file, starts, |starts|) + Piece(file, LastStart(starts, |starts|), |file|)
  }

  /** No fragment is empty. */
  predicate NoEmptyContents(fs: seq<Function>)
  {
    forall k :: 0 <= k < |fs| ==> fs[k].contents != []
  }

  /** Every fragment's base line is the number of line breaks in the text before it. */
  predicate BaseLinesCountNewlines(fs: seq<Function>)
  {
    forall k :: 0 <= k < |fs| ==> fs[k].baseLine == NewlineCount(Concat(fs[..k]))
  }

  // ---------------------------------------------------------------------------
  // The operations
  // ---------------------------------------------------------------------------

  /** Builds a fragment; the file name is accepted and not stored. */
  function MakeFunction(baseLine: nat, fileName: string, contents: string): (f: Function)
    ensures f.baseLine == baseLine && f.contents == contents
  {
    Function(baseLine, contents)
  }

  /** Counts the positions of `haystack` that hold `needle`. */
  method CountOccurrences(haystack: string, needle: char) returns (count: nat)
    ensures count == Occurrences(haystack, needle)
  {
    count := 0;
    for i := 0 to |haystack|
      invariant count == Occurrences(haystack[..i], needle)
    {
      assert haystack[..i + 1][..i] == haystack[..i];
      if haystack[i] == needle {
        count := count + 1;
      }
    }
    assert haystack[..|haystack|] == haystack;
  }

  /** Splits `file` at the match starts `starts` into non-empty fragments with their base lines. */
  method Tokenize(file: string, fileName: string, starts: seq<nat>) returns (ret: seq<Function>)
    requires MatchStarts(file, starts)
    ensures ret == Tokenized(file, starts)
  {
    var currentLineNumber: nat := 0;
    var lineLength: nat := 0;
    var lastStart: nat := 0;
    ret := [];
    var i := 0;
    while i < |starts|
      invariant 0 <= i <= |starts|
      invariant lastStart == LastStart(starts, i)
      invariant currentLineNumber == NewlineCount(file[..lastStart])
      invariant ret == PiecesBefore(file, starts, i)
    {
      var start := starts[i];
      var currentFunctionString := file[lastStart..start];
      lineLength := CountOccurrences(currentFunctionString, '\n');
      if currentFunctionString != "" {
        var f := MakeFunction(currentLineNumber, fileName, currentFunctionString);
        ret := ret + [f];
      }
      SplitAt(file, lastStart, start);
      lastStart := start;
      currentLineNumber := currentLineNumber + lineLength;
      i := i + 1;
    }
    var currentFunctionString := file[lastStart..|file|];
    if currentFunctionString != "" {
      var f := MakeFunction(currentLineNumber, fileName, currentFunctionString);
      ret := ret + [f];
    }
  }

  // ---------------------------------------------------------------------------
  // Lemmas
  // ---------------------------------------------------------------------------

  /** Counting distributes over concatenation. */
  lemma {:induction false} OccurrencesAppend(a: string, b: string, c: char)
    ensures Occurrences(a + b, c) == Occurrences(a, c) + Occurrences(b, c)
  {
    if b == [] {
      assert a + b == a;
    } else {
      assert (a + b)[..|a + b| - 1] == a + b[..|b| - 1];
      OccurrencesAppend(a, b[..|b| - 1], c);
    }
  }

  /** The line count of a prefix of the file plus that of the next slice is the count up to its end. */
  lemma SplitAt(file: string, from: nat, to: nat)
    requires from <= to <= |file|
    ensures NewlineCount(file[..to]) == NewlineCount(file[..from]) + NewlineCount(file[from..to])
  {
    assert file[..to] == file[..from] + file[from..to];
    OccurrencesAppend(file[..from], file[from..to], '\n');
  }

  /** The recursive count is the number of indices that hold the character. */
  lemma {:induction false} OccurrencesIsIndexCount(h: string, c: char)
    ensures Occurrences(h, c) == |IndicesOf(h, c)|
  {
    if h != [] {
      var n := |h| - 1;
      OccurrencesIsIndexCount(h[..n], c);
      if h[n] == c {
        assert IndicesOf(h, c) == IndicesOf(h[..n], c) + {n};
      } else {
        assert IndicesOf(h, c) == IndicesOf(h[..n], c);
      }
    }
  }

  /** Joining fragment texts distributes over concatenation. */
  lemma {:induction false} ConcatAppend(a: seq<Function>, b: seq<Function>)
    ensures Concat(a + b) == Concat(a) + Concat(b)
  {
    if a == [] {
      assert a + b == b;
    } else {
      assert (a + b)[1..] == a[1..] + b;
      ConcatAppend(a[1..], b);
    }
  }

  /** Appending one fragment adds its text at the end of the joined text. */
  lemma Snoc(r: seq<Function>, f: Function)
    ensures Concat(r + [f]) == Concat(r) + f.contents
    ensures (r + [f])[..|r|] == r
  {
    ConcatAppend(r, [f]);
    assert [f][1..] == [];
  }

  /** The joined text ends at a cut. */
  lemma CutAtEnd(fs: seq<Function>)
    ensures IsCut(fs, |Concat(fs)|)
  {
  }

  /** Appending a piece extends the joined text by the piece's slice. */
  lemma AppendPieceConcat(r: seq<Function>, file: string, from: nat, to: nat)
    requires from <= to <= |file| && Concat(r) == file[..from]
    ensures Concat(r + Piece(file, from, to)) == file[..to]
  {
    if from == to {
      assert r + Piece(file, from, to) == r;
    } else {
      Snoc(r, Piece(file, from, to)[0]);
      assert file[..to] == file[..from] + file[from..to];
    }
  }

  /** Appending a piece keeps the base lines equal to the line breaks before each fragment. */
  lemma AppendPieceBaseLines(r: seq<Function>, file: string, from: nat, to: nat)
    requires from <= to <= |file| && Concat(r) == file[..from]
    requires BaseLinesCountNewlines(r)
    ensures BaseLinesCountNewlines(r + Piece(file, from, to))
  {
    var s := r + Piece(file, from, to);
    if from == to {
      assert s == r;
    } else {
      forall k | 0 <= k < |s|
        ensures s[k].baseLine == NewlineCount(Concat(s[..k]))
      {
        if k < |r| {
          assert s[..k] == r[..k];
        } else {
          assert s[..k] == r;
        }
      }
    }
  }

  /** Appending a piece adds exactly its end offset to the cuts. */
  lemma AppendPieceCut(r: seq<Function>, file: string, from: nat, to: nat, x: nat)
    requires from <= to <= |file| && Concat(r) == file[..from]
    ensures IsCut(r + Piece(file, from, to), x) <==> IsCut(r, x) || x == to
  {
    CutAtEnd(r);
    if from == to {
      assert r + Piece(file, from, to) == r;
    } else {
      Snoc(r, Piece(file, from, to)[0]);
      AppendPieceConcat(r, file, from, to);
    }
  }

  /** The fragments emitted after the first `i` matches join to the file up to the current start. */
  lemma {:induction false} PiecesBeforeConcat(file: string, starts: seq<nat>, i: nat)
    requires MatchStarts(file, starts) && i <= |starts|
    ensures Concat(PiecesBefore(file, starts, i)) == file[..LastStart(starts, i)]
  {
    if i > 0 {
      PiecesBeforeConcat(file, starts, i - 1);
      AppendPieceConcat(PiecesBefore(file, starts, i - 1), file, LastStart(starts, i - 1), starts[i - 1]);
    }
  }

  /** The fragments emitted after the first `i` matches are non-empty and at most `i`. */
  lemma {:induction false} PiecesBeforeNonEmpty(file: string, starts: seq<nat>, i: nat)
    requires MatchStarts(file, starts) && i <= |starts|
    ensures NoEmptyContents(PiecesBefore(file, starts, i))
    ensures |PiecesBefore(file, starts, i)| <= i
  {
    if i > 0 {
      PiecesBeforeNonEmpty(file, starts, i - 1);
    }
  }

  /** The fragments emitted after the first `i` matches carry correct base lines. */
  lemma {:induction false} PiecesBeforeBaseLines(file: string, starts: seq<nat>, i: nat)
    requires MatchStarts(file, starts) && i <= |starts|
    ensures BaseLinesCountNewlines(PiecesBefore(file, starts, i))
  {
    if i > 0 {
      PiecesBeforeBaseLines(file, starts, i - 1);
      PiecesBeforeConcat(file, starts, i - 1);
      AppendPieceBaseLines(PiecesBefore(file, starts, i - 1), file, LastStart(starts, i - 1), starts[i - 1]);
    }
  }

  /** The fragments emitted after the first `i` matches are cut at 0 and at those matches only. */
  lemma {:induction false} PiecesBeforeCut(file: string, starts: seq<nat>, i: nat, x: nat)
    requires MatchStarts(file, starts) && i <= |starts|
    ensures IsCut(PiecesBefore(file, starts, i), x) <==> x == 0 || AmongFirst(starts, i, x)
  {
    if i > 0 {
      PiecesBeforeCut(file, starts, i - 1, x);
      PiecesBeforeCutStep(file, starts, i, x);
    }
  }

  /** Being among all the match starts is being an element of them. */
  lemma {:induction false} AmongFirstIsElement(starts: seq<nat>, i: nat, x: nat)
    requires i <= |starts|
    ensures AmongFirst(starts, i, x) <==> x in starts[..i]
  {
    if i > 0 {
      AmongFirstIsElement(starts, i - 1, x);
      assert starts[..i] == starts[..i - 1] + [starts[i - 1]];
    }
  }

  /** Consuming one more match adds its start to the cuts. */
  lemma PiecesBeforeCutStep(file: string, starts: seq<nat>, i: nat, x: nat)
    requires MatchStarts(file, starts) && 0 < i <= |starts|
    ensures IsCut(PiecesBefore(file, starts, i), x) <==> IsCut(PiecesBefore(file, starts, i - 1), x) || x == starts[i - 1]
  {
    PiecesBeforeConcat(file, starts, i - 1);
    AppendPieceCut(PiecesBefore(file, starts, i - 1), file, LastStart(starts, i - 1), starts[i - 1], x);
  }

  /** Joining the fragments' texts in order gives back the file. */
  lemma TokenizeCoversFile(file: string, starts: seq<nat>)
    requires MatchStarts(file, starts)
    ensures Concat(Tokenized(file, starts)) == file
  {
    var n := |starts|;
    PiecesBeforeConcat(file, starts, n);
    AppendPieceConcat(PiecesBefore(file, starts, n), file, LastStart(starts, n), |file|);
    assert file[..|file|] == file;
  }

  /** No fragment is empty. */
  lemma TokenizeNoEmptyFunction(file: string, starts: seq<nat>)
    requires MatchStarts(file, starts)
    ensures forall f :: f in Tokenized(file, starts) ==> |f.contents| > 0
  {
    PiecesBeforeNonEmpty(file, starts, |starts|);
  }

  /** There is at most one fragment more than there are matches. */
  lemma TokenizeCount(file: string, starts: seq<nat>)
    requires MatchStarts(file, starts)
    ensures |Tokenized(file, starts)| <= |starts| + 1
  {
    PiecesBeforeNonEmpty(file, starts, |starts|);
  }

  /** Every fragment's base line counts the line breaks in the fragments before it. */
  lemma TokenizedBaseLines(file: string, starts: seq<nat>)
    requires MatchStarts(file, starts)
    ensures BaseLinesCountNewlines(Tokenized(file, starts))
  {
    var n := |starts|;
    PiecesBeforeBaseLines(file, starts, n);
    PiecesBeforeConcat(file, starts, n);
    AppendPieceBaseLines(PiecesBefore(file, starts, n), file, LastStart(starts, n), |file|);
  }

  /** A sequence is what comes before position `k`, the element there and what follows. */
  lemma SplitAround<T>(s: seq<T>, k: nat)
    requires k < |s|
    ensures s == s[..k] + ([s[k]] + s[k + 1..])
  {
  }

  /** The joined text of a fragment followed by others starts with that fragment's text. */
  lemma ConcatCons(f: Function, fs: seq<Function>)
    ensures Concat([f] + fs) == f.contents + Concat(fs)
  {
    assert ([f] + fs)[1..] == fs;
  }

  /** The joined text splits into the text before fragment `k`, its contents and the text after. */
  lemma ConcatAround(fs: seq<Function>, k: nat)
    requires k < |fs|
    ensures Concat(fs) == Concat(fs[..k]) + (fs[k].contents + Concat(fs[k + 1..]))
  {
    SplitAround(fs, k);
    ConcatAppend(fs[..k], [fs[k]] + fs[k + 1..]);
    ConcatCons(fs[k], fs[k + 1..]);
  }

  /** The parts of a three-way concatenation are its slices. */
  lemma SlicesOfParts(a: string, b: string, c: string)
    ensures (a + (b + c))[..|a|] == a
    ensures (a + (b + c))[|a|..|a| + |b|] == b
  {
  }

  /** Fragment `k` of a sequence joining to `file` is the slice that follows the earlier fragments. */
  lemma FragmentAt(fs: seq<Function>, file: string, k: nat)
    requires k < |fs| && Concat(fs) == file && BaseLinesCountNewlines(fs)
    ensures var offset := |Concat(fs[..k])|;
      && offset + |fs[k].contents| <= |file|
      && fs[k].contents == file[offset..offset + |fs[k].contents|]
      && fs[k].baseLine == NewlineCount(file[..offset])
  {
    ConcatAround(fs, k);
    SlicesOfParts(Concat(fs[..k]), fs[k].contents, Concat(fs[k + 1..]));
  }

  /**
   * Fragment `k` is the slice of the file that starts where the earlier
   * fragments end, and its base line is the number of line breaks before that offset.
   */
  lemma TokenizeBaseLines(file: string, starts: seq<nat>, k: nat)
    requires MatchStarts(file, starts) && k < |Tokenized(file, starts)|
    ensures var fs := Tokenized(file, starts);
      var offset := |Concat(fs[..k])|;
      && offset + |fs[k].contents| <= |file|
      && fs[k].contents == file[offset..offset + |fs[k].contents|]
      && fs[k].baseLine == NewlineCount(file[..offset])
  {
    TokenizeCoversFile(file, starts);
    TokenizedBaseLines(file, starts);
    FragmentAt(Tokenized(file, starts), file, k);
  }

  /** Base lines never decrease along the fragments. */
  lemma TokenizeBaseLinesMonotone(file: string, starts: seq<nat>, j: nat, k: nat)
    requires MatchStarts(file, starts) && j <= k < |Tokenized(file, starts)|
    ensures Tokenized(file, starts)[j].baseLine <= Tokenized(file, starts)[k].baseLine
  {
    TokenizedBaseLines(file, starts);
    BaseLinesMonotone(Tokenized(file, starts), j, k);
  }

  /** In any sequence with correct base lines, base lines never decrease. */
  lemma BaseLinesMonotone(fs: seq<Function>, j: nat, k: nat)
    requires BaseLinesCountNewlines(fs) && j <= k < |fs|
    ensures fs[j].baseLine <= fs[k].baseLine
  {
    assert fs[..k] == fs[..j] + fs[j..k];
    ConcatAppend(fs[..j], fs[j..k]);
    OccurrencesAppend(Concat(fs[..j]), Concat(fs[j..k]), '\n');
  }

  /**
   * The fragments are cut exactly at the match starts: an offset is 0, or
   * the end of the text of some non-empty run of leading fragments, exactly
   * when it is 0, the length of the file or a match start.
   */
  lemma TokenizeCutsAtMatches(file: string, starts: seq<nat>, x: nat)
    requires MatchStarts(file, starts)
    ensures IsCut(Tokenized(file, starts), x) <==> x == 0 || x == |file| || x in starts
  {
    var n := |starts|;
    PiecesBeforeCut(file, starts, n, x);
    AmongFirstIsElement(starts, n, x);
    PiecesBeforeConcat(file, starts, n);
    AppendPieceCut(PiecesBefore(file, starts, n), file, LastStart(starts, n), |file|, x);
    assert starts[..n] == starts;
  }

  /** Without matches, a non-empty file is one fragment on line 0 and an empty file none. */
  lemma TokenizeNoMatches(file: string)
    ensures MatchStarts(file, [])
    ensures Tokenized(file, []) == if file == [] then [] else [Function(0, file)]
  {
    assert file[..0] == [];
    assert file[0..|file|] == file;
  }

  /** The file name given to MakeFunction has no influence on the fragment. */
  lemma MakeFunctionIgnoresFileName(baseLine: nat, n1: string, n2: string, contents: string)
    ensures MakeFunction(baseLine, n1, contents) == MakeFunction(baseLine, n2, contents)
  {
  }
}
