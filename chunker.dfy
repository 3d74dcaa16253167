/** The text chunker of the PDF indexing handler
    (`IndexPDFButton_Click`, src/MainWindow.xaml.cs): page text is sanitised
    into lines tagged with their page, and every line longer than the
    embedding model's limit is cut into pieces, rewriting the list of lines
    in place. */
module Chunker {
  import opened Text

  /** A 32-bit signed integer, the type of a PDF page number. */
  newtype int32 = x: int | -0x8000_0000 <= x < 0x8000_0000

  /** A piece of page text and the number of the page it came from. */
  datatype TextChunk = TextChunk(text: string, page: int32)

  /** One page as the PDF reader hands it over: its words joined by single
      spaces, and its page number. */
  datatype PageText = PageText(words: string, number: int32)

  /** `1024 / 2`: the longest chunk the embedding model is given. */
  const MaxChunkLength: nat := 1024 / 2

  // ---------------------------------------------------------------------
  // Sanitising (lines 107-115)
  // ---------------------------------------------------------------------

  /** The call `Split('\r', '\n', StringSplitOptions.RemoveEmptyEntries)`
      binds to `Split(char separator, int count, StringSplitOptions)`: the
      character '\n' converts to the count 10. So the page text is cut at
      carriage returns only, into at most 10 pieces. */
  const SplitCount: nat := '\n' as nat

  /** How many carriage returns `s` starts with: the empty entries the
      split skips before a piece. */
  function LeadingReturns(s: string): (n: nat)
    ensures n <= |s|
    decreases |s|
  {
    if s != [] && s[0] == '\r' then 1 + LeadingReturns(s[1..]) else 0
  }

  /** `LeadingReturns` counts carriage returns and stops at the first other
      character. */
  lemma {:induction false} LeadingReturnsSpec(s: string)
    ensures var n := LeadingReturns(s);
      && (n < |s| ==> s[n] != '\r')
      && (forall i :: 0 <= i < n ==> s[i] == '\r')
    decreases |s|
  {
    if s != [] && s[0] == '\r' {
      LeadingReturnsSpec(s[1..]);
    }
  }

  /** `s` without its leading carriage returns. */
  function DropReturns(s: string): string {
    s[LeadingReturns(s)..]
  }

  /** The position of the first carriage return of `s`, or `|s|` when it has
      none. */
  function FirstReturn(s: string): (i: nat)
    ensures i <= |s|
    decreases |s|
  {
    if s == [] || s[0] == '\r' then 0 else 1 + FirstReturn(s[1..])
  }

  /** `FirstReturn` stops at a carriage return, and at none before it. */
  lemma {:induction false} FirstReturnSpec(s: string)
    ensures var i := FirstReturn(s);
      && (i < |s| ==> s[i] == '\r')
      && (forall k :: 0 <= k < i ==> s[k] != '\r')
    decreases |s|
  {
    if s != [] && s[0] != '\r' {
      FirstReturnSpec(s[1..]);
    }
  }

  /** Whether another piece follows the first one: the text after its
      leading carriage returns is not empty, more than one piece is allowed,
      and a carriage return ends the first piece. */
  predicate MorePieces(s: string, count: nat) {
    DropReturns(s) != [] && 1 < count && FirstReturn(DropReturns(s)) < |DropReturns(s)|
  }

  /** The first piece, up to the first carriage return after the leading
      ones. */
  function FirstPiece(s: string): string
    requires DropReturns(s) != []
  {
    DropReturns(s)[..FirstReturn(DropReturns(s))]
  }

  /** The text after the first piece and the carriage return that ends it. */
  function AfterFirstPiece(s: string): (rest: string)
    requires DropReturns(s) != [] && FirstReturn(DropReturns(s)) < |DropReturns(s)|
    ensures |rest| < |s|
  {
    DropReturns(s)[FirstReturn(DropReturns(s)) + 1..]
  }

  /** The pieces `Split('\r', count, RemoveEmptyEntries)` returns: empty
      entries are skipped, and once `count - 1` pieces are out the last one
      is the whole rest of the text after its leading carriage returns. */
  function SplitReturns(s: string, count: nat): seq<string>
    requires 1 <= count
    decreases |s|
  {
    if DropReturns(s) == [] then []
    else if MorePieces(s, count) then [FirstPiece(s)] + SplitReturns(AfterFirstPiece(s), count - 1)
    else [DropReturns(s)]
  }

  /** `s` holds no carriage return. */
  predicate HasNoReturn(s: string) {
    forall i :: 0 <= i < |s| ==> s[i] != '\r'
  }

  /** The shape of what the split returns with `count` pieces allowed: no
      piece is empty or starts with a carriage return; every piece but the
      last holds none, and when fewer than `count` pieces come out the last
      holds none either. Only a `count`-th piece may keep carriage returns. */
  predicate SplitShape(r: seq<string>, count: nat) {
    && |r| <= count
    && (forall k :: 0 <= k < |r| ==> r[k] != [] && r[k][0] != '\r')
    && (forall k :: 0 <= k < |r| - 1 ==> HasNoReturn(r[k]))
    && (|r| < count ==> forall k :: 0 <= k < |r| ==> HasNoReturn(r[k]))
  }

  lemma ShapeCons(head: string, rest: seq<string>, count: nat)
    requires 1 < count && head != [] && head[0] != '\r' && HasNoReturn(head)
    requires SplitShape(rest, count - 1)
    ensures SplitShape([head] + rest, count)
  {
    var r := [head] + rest;
    forall k | 0 < k < |r| ensures r[k] == rest[k - 1] { }
  }

  /** A piece that a carriage return ends comes off the front of the split. */
  lemma SplitStep(s: string, count: nat)
    requires MorePieces(s, count)
    ensures SplitReturns(s, count) == [FirstPiece(s)] + SplitReturns(AfterFirstPiece(s), count - 1)
  {
  }

  /** Otherwise the rest of the text after its leading carriage returns is
      the last piece. */
  lemma SplitLast(s: string, count: nat)
    requires 1 <= count && DropReturns(s) != [] && !MorePieces(s, count)
    ensures SplitReturns(s, count) == [DropReturns(s)]
  {
  }

  /** A piece starts after the leading carriage returns, so it is not one. */
  lemma PieceHead(s: string)
    requires DropReturns(s) != []
    ensures DropReturns(s)[0] != '\r' && FirstPiece(s) != []
    ensures FirstPiece(s)[0] != '\r' && HasNoReturn(FirstPiece(s))
    ensures FirstReturn(DropReturns(s)) == |DropReturns(s)| ==> HasNoReturn(DropReturns(s))
  {
    var t := DropReturns(s);
    LeadingReturnsSpec(s);
    FirstReturnSpec(t);
    assert t[0] == s[LeadingReturns(s)];
  }

  /** The split has that shape. */
  lemma {:induction false} SplitReturnsShape(s: string, count: nat)
    requires 1 <= count
    ensures SplitShape(SplitReturns(s, count), count)
    decreases |s|
  {
    if MorePieces(s, count) {
      SplitReturnsShape(AfterFirstPiece(s), count - 1);
      ShapeStep(s, count);
    } else {
      ShapeLast(s, count);
    }
  }

  /** The inductive step of `SplitReturnsShape`. */
  lemma ShapeStep(s: string, count: nat)
    requires MorePieces(s, count)
    requires SplitShape(SplitReturns(AfterFirstPiece(s), count - 1), count - 1)
    ensures SplitShape(SplitReturns(s, count), count)
  {
    PieceHead(s);
    SplitStep(s, count);
    ShapeCons(FirstPiece(s), SplitReturns(AfterFirstPiece(s), count - 1), count);
  }

  /** The base cases of `SplitReturnsShape`: no piece, or one. */
  lemma ShapeLast(s: string, count: nat)
    requires 1 <= count && !MorePieces(s, count)
    ensures SplitShape(SplitReturns(s, count), count)
  {
    if DropReturns(s) == [] {
      assert SplitReturns(s, count) == [];
    } else {
      PieceHead(s);
      SplitLast(s, count);
    }
  }

  /** The characters of `s` other than the carriage return, in order. */
  function WithoutReturns(s: string): string {
    if s == [] then []
    else if s[0] == '\r' then WithoutReturns(s[1..])
    else [s[0]] + WithoutReturns(s[1..])
  }

  lemma {:induction false} WithoutReturnsAppend(a: string, b: string)
    ensures WithoutReturns(a + b) == WithoutReturns(a) + WithoutReturns(b)
    decreases |a|
  {
    if a == [] {
      assert a + b == b;
    } else {
      assert (a + b)[0] == a[0] && (a + b)[1..] == a[1..] + b;
      WithoutReturnsAppend(a[1..], b);
    }
  }

  lemma {:induction false} WithoutReturnsOfDropReturns(s: string)
    ensures WithoutReturns(DropReturns(s)) == WithoutReturns(s)
    decreases |s|
  {
    if s != [] && s[0] == '\r' {
      WithoutReturnsOfDropReturns(s[1..]);
      assert DropReturns(s) == DropReturns(s[1..]);
    }
  }

  /** The split loses carriage returns and nothing else: read in order, its
      pieces hold every other character of the text. */
  lemma {:induction false} SplitReturnsKeepsText(s: string, count: nat)
    requires 1 <= count
    ensures WithoutReturns(Concat(SplitReturns(s, count))) == WithoutReturns(s)
    decreases |s|
  {
    if MorePieces(s, count) {
      SplitReturnsKeepsText(AfterFirstPiece(s), count - 1);
      KeepsTextStep(s, count);
    } else {
      KeepsTextLast(s, count);
    }
  }

  /** The inductive step of `SplitReturnsKeepsText`: the first piece and its
      carriage return come off the front. */
  lemma KeepsTextStep(s: string, count: nat)
    requires MorePieces(s, count)
    requires WithoutReturns(Concat(SplitReturns(AfterFirstPiece(s), count - 1)))
      == WithoutReturns(AfterFirstPiece(s))
    ensures WithoutReturns(Concat(SplitReturns(s, count))) == WithoutReturns(s)
  {
    var t := DropReturns(s);
    var rest := SplitReturns(AfterFirstPiece(s), count - 1);
    WithoutReturnsOfDropReturns(s);
    SplitStep(s, count);
    ConcatCons(FirstPiece(s), rest);
    WithoutReturnsAppend(FirstPiece(s), Concat(rest));
    FirstReturnSpec(t);
    WithoutReturnsAtReturn(t, FirstReturn(t));
  }

  /** The base cases of `SplitReturnsKeepsText`: no piece, or one. */
  lemma KeepsTextLast(s: string, count: nat)
    requires 1 <= count && !MorePieces(s, count)
    ensures WithoutReturns(Concat(SplitReturns(s, count))) == WithoutReturns(s)
  {
    var t := DropReturns(s);
    WithoutReturnsOfDropReturns(s);
    if t == [] {
      assert SplitReturns(s, count) == [];
    } else {
      SplitLast(s, count);
      ConcatOne(t);
    }
  }

  lemma ConcatCons(head: string, rest: seq<string>)
    ensures Concat([head] + rest) == head + Concat(rest)
  {
    assert ([head] + rest)[1..] == rest;
  }

  lemma ConcatOne(t: string)
    ensures Concat([t]) == t
  {
    assert [t][1..] == [];
  }

  /** Cutting `t` at a carriage return loses nothing but that return. */
  lemma WithoutReturnsAtReturn(t: string, j: nat)
    requires j < |t| && t[j] == '\r'
    ensures WithoutReturns(t) == WithoutReturns(t[..j]) + WithoutReturns(t[j + 1..])
  {
    var tail := [t[j]] + t[j + 1..];
    assert t == t[..j] + tail;
    WithoutReturnsAppend(t[..j], tail);
    assert tail[1..] == t[j + 1..];
  }

  /** `s` with every run of carriage returns cut down to one, and the runs
      at either end dropped: a character followed by a run keeps one
      carriage return only when more text follows the run. */
  function SqueezeReturns(s: string): string
    decreases |s|
  {
    if s == [] then []
    else if s[0] == '\r' then SqueezeReturns(s[1..])
    else if |s| > 1 && s[1] == '\r' then
      var t := SqueezeReturns(s[1..]);
      if t == [] then [s[0]] else [s[0]] + "\r" + t
    else [s[0]] + SqueezeReturns(s[1..])
  }

  lemma {:induction false} SqueezeOfDropReturns(s: string)
    ensures SqueezeReturns(DropReturns(s)) == SqueezeReturns(s)
    ensures SqueezeReturns(s) == [] <==> DropReturns(s) == []
    decreases |s|
  {
    if s != [] && s[0] == '\r' {
      SqueezeOfDropReturns(s[1..]);
      assert DropReturns(s) == DropReturns(s[1..]);
    } else if s != [] {
      assert DropReturns(s) == s;
    }
  }

  /** Text without carriage returns is its own squeeze. */
  lemma {:induction false} SqueezeOfNoReturn(p: string)
    requires HasNoReturn(p)
    ensures SqueezeReturns(p) == p
    decreases |p|
  {
    if p != [] {
      SqueezeOfNoReturn(p[1..]);
    }
  }

  /** A piece ended by a carriage return keeps that return only when some
      text follows. */
  lemma {:induction false} SqueezeOfPiece(p: string, y: string)
    requires p != [] && HasNoReturn(p)
    ensures var t := SqueezeReturns(y);
      SqueezeReturns(p + "\r" + y) == if t == [] then p else p + "\r" + t
    decreases |p|
  {
    if |p| == 1 {
      assert p + "\r" + y == [p[0]] + "\r" + y;
      SqueezeBeforeReturn(p[0], y);
    } else {
      SqueezeOfPiece(p[1..], y);
      assert p + "\r" + y == [p[0]] + (p[1..] + "\r" + y);
      SqueezeCons(p[0], p[1..] + "\r" + y);
    }
  }

  /** A character other than a carriage return, not followed by one, is
      kept. */
  lemma SqueezeCons(c: char, x: string)
    requires c != '\r' && x != [] && x[0] != '\r'
    ensures SqueezeReturns([c] + x) == [c] + SqueezeReturns(x)
  {
    assert ([c] + x)[1..] == x;
  }

  /** A character followed by a carriage return keeps it only when some
      text follows. */
  lemma SqueezeBeforeReturn(c: char, y: string)
    requires c != '\r'
    ensures var t := SqueezeReturns(y);
      SqueezeReturns([c] + "\r" + y) == if t == [] then [c] else [c] + "\r" + t
  {
    var s := [c] + "\r" + y;
    assert s[1..] == "\r" + y && s[1..][1..] == y;
  }

  /** When the split stops short of `count` pieces it cuts at every run of
      carriage returns and nowhere else: rejoined with single carriage
      returns, the pieces give back the squeezed text. */
  lemma {:induction false} SplitReturnsRejoins(s: string, count: nat)
    requires 1 <= count
    ensures |SplitReturns(s, count)| < count ==>
      Join("\r", SplitReturns(s, count)) == SqueezeReturns(s)
    decreases |s|
  {
    if MorePieces(s, count) {
      SplitReturnsRejoins(AfterFirstPiece(s), count - 1);
      RejoinsStep(s, count);
    } else {
      RejoinsLast(s, count);
    }
  }

  /** The inductive step of `SplitReturnsRejoins`: the first piece and the
      carriage return that ends it come off the front. */
  lemma RejoinsStep(s: string, count: nat)
    requires MorePieces(s, count)
    requires |SplitReturns(AfterFirstPiece(s), count - 1)| < count - 1 ==>
      Join("\r", SplitReturns(AfterFirstPiece(s), count - 1)) == SqueezeReturns(AfterFirstPiece(s))
    ensures |SplitReturns(s, count)| < count ==>
      Join("\r", SplitReturns(s, count)) == SqueezeReturns(s)
  {
    var t := DropReturns(s);
    var p := FirstPiece(s);
    var y := AfterFirstPiece(s);
    var rest := SplitReturns(y, count - 1);
    SplitStep(s, count);
    PieceHead(s);
    FirstReturnSpec(t);
    assert t == p + "\r" + y;
    SqueezeOfDropReturns(s);
    SqueezeOfPiece(p, y);
    SqueezeOfDropReturns(y);
    assert rest == [] <==> DropReturns(y) == [];
    assert ([p] + rest)[1..] == rest;
  }

  /** The base cases of `SplitReturnsRejoins`: no piece, or one. */
  lemma RejoinsLast(s: string, count: nat)
    requires 1 <= count && !MorePieces(s, count)
    ensures |SplitReturns(s, count)| < count ==>
      Join("\r", SplitReturns(s, count)) == SqueezeReturns(s)
  {
    var t := DropReturns(s);
    SqueezeOfDropReturns(s);
    if t != [] {
      SplitLast(s, count);
      PieceHead(s);
      if 1 < count {
        SqueezeOfNoReturn(t);
      }
    }
  }

  /** With `count` pieces out, the last cut of the split is the carriage
      return at `j`: the pieces before it rejoin to the squeezed text before
      `j`, and the last piece is everything after `j` but its leading
      carriage returns. */
  predicate LastCutAt(s: string, r: seq<string>, j: int) {
    && 1 <= |r| && 0 <= j < |s| && s[j] == '\r'
    && Join("\r", r[..|r| - 1]) == SqueezeReturns(s[..j])
    && r[|r| - 1] == DropReturns(s[j..])
  }

  /** When the split returns exactly `count` pieces, it cuts at every run of
      carriage returns up to some carriage return `j` and nowhere else, and
      the last piece is all the text after `j`, carriage returns and all. */
  lemma {:induction false} SplitReturnsAtCount(s: string, count: nat)
    requires 1 <= count
    ensures 2 <= count && |SplitReturns(s, count)| == count ==>
      exists j :: 0 <= j < |s| && s[j] == '\r'
        && Join("\r", SplitReturns(s, count)[..count - 1]) == SqueezeReturns(s[..j])
        && SplitReturns(s, count)[count - 1] == DropReturns(s[j..])
    decreases |s|
  {
    if MorePieces(s, count) && 2 < count {
      SplitReturnsAtCount(AfterFirstPiece(s), count - 1);
      AtCountInduct(s, count);
    } else {
      AtCountBase(s, count);
    }
  }

  /** The property `SplitReturnsAtCount` proves, for one text and count. */
  predicate HasLastCut(s: string, count: nat)
    requires 1 <= count
  {
    2 <= count && |SplitReturns(s, count)| == count ==>
      exists j :: 0 <= j < |s| && s[j] == '\r'
        && Join("\r", SplitReturns(s, count)[..count - 1]) == SqueezeReturns(s[..j])
        && SplitReturns(s, count)[count - 1] == DropReturns(s[j..])
  }

  /** The inductive step of `SplitReturnsAtCount`. */
  lemma AtCountInduct(s: string, count: nat)
    requires 2 < count && MorePieces(s, count)
    requires HasLastCut(AfterFirstPiece(s), count - 1)
    ensures HasLastCut(s, count)
  {
    var r := SplitReturns(s, count);
    var y := AfterFirstPiece(s);
    var rest := SplitReturns(y, count - 1);
    SplitStep(s, count);
    if |r| == count {
      assert |rest| == count - 1;
      var i :| 0 <= i < |y| && y[i] == '\r'
        && Join("\r", rest[..count - 2]) == SqueezeReturns(y[..i])
        && rest[count - 2] == DropReturns(y[i..]);
      assert LastCutAt(y, rest, i);
      AtCountStep(s, count, i);
      assert LastCutAt(s, r, LeadingReturns(s) + FirstReturn(DropReturns(s)) + 1 + i);
    }
  }

  /** The base cases of `SplitReturnsAtCount`: at most one piece, or two
      pieces with two allowed. */
  lemma AtCountBase(s: string, count: nat)
    requires 1 <= count && !(MorePieces(s, count) && 2 < count)
    ensures HasLastCut(s, count)
  {
    var r := SplitReturns(s, count);
    if MorePieces(s, count) {
      AtTwoPieces(s);
      if |r| == 2 {
        assert LastCutAt(s, r, LeadingReturns(s) + FirstReturn(DropReturns(s)));
      }
    } else if DropReturns(s) != [] {
      SplitLast(s, count);
    }
  }

  /** The prefix of `s` up to a point past its leading carriage returns has
      the same leading carriage returns. */
  lemma {:induction false} DropReturnsOfPrefix(s: string, n: nat)
    requires LeadingReturns(s) < n <= |s|
    ensures LeadingReturns(s[..n]) == LeadingReturns(s)
    ensures DropReturns(s[..n]) == DropReturns(s)[..n - LeadingReturns(s)]
    decreases |s|
  {
    if s[0] == '\r' {
      assert s[..n][1..] == s[1..][..n - 1];
      DropReturnsOfPrefix(s[1..], n - 1);
    }
  }

  /** The carriage return that ends the first piece, as a position in `s`,
      and the text on either side of it. */
  lemma FirstCut(s: string)
    requires DropReturns(s) != [] && FirstReturn(DropReturns(s)) < |DropReturns(s)|
    ensures var j := LeadingReturns(s) + FirstReturn(DropReturns(s));
      && j < |s| && s[j] == '\r'
      && SqueezeReturns(s[..j]) == FirstPiece(s)
      && s[j + 1..] == AfterFirstPiece(s)
  {
    var t := DropReturns(s);
    var j := LeadingReturns(s) + FirstReturn(t);
    FirstReturnSpec(t);
    PieceHead(s);
    assert s[j] == t[FirstReturn(t)];
    DropReturnsOfPrefix(s, j);
    assert DropReturns(s[..j]) == FirstPiece(s);
    SqueezeOfDropReturns(s[..j]);
    SqueezeOfNoReturn(FirstPiece(s));
  }

  /** The case of two pieces: the cut is the one after the first piece. */
  lemma AtTwoPieces(s: string)
    requires MorePieces(s, 2)
    ensures |SplitReturns(s, 2)| == 2 ==>
      LastCutAt(s, SplitReturns(s, 2), LeadingReturns(s) + FirstReturn(DropReturns(s)))
  {
    var r := SplitReturns(s, 2);
    var y := AfterFirstPiece(s);
    var j := LeadingReturns(s) + FirstReturn(DropReturns(s));
    SplitStep(s, 2);
    FirstCut(s);
    if |r| == 2 {
      SplitLast(y, 1);
      TakeOfCons(FirstPiece(s), [DropReturns(y)], 1);
      DropReturnsAtCut(s, j, y);
    }
  }

  /** From a carriage return on, the text after its leading carriage
      returns is that of the text after it. */
  lemma DropReturnsAtCut(s: string, j: nat, y: string)
    requires j < |s| && s[j] == '\r' && s[j + 1..] == y
    ensures DropReturns(s[j..]) == DropReturns(y)
  {
    assert s[j..][1..] == y;
  }

  /** The inductive step of `SplitReturnsAtCount`: the cut in the text
      after the first piece, moved past that piece and its carriage
      return. */
  lemma AtCountStep(s: string, count: nat, i: int)
    requires 2 < count && MorePieces(s, count)
    requires |SplitReturns(AfterFirstPiece(s), count - 1)| == count - 1
    requires LastCutAt(AfterFirstPiece(s), SplitReturns(AfterFirstPiece(s), count - 1), i)
    ensures LastCutAt(s, SplitReturns(s, count), LeadingReturns(s) + FirstReturn(DropReturns(s)) + 1 + i)
  {
    var r := SplitReturns(s, count);
    var p := FirstPiece(s);
    var y := AfterFirstPiece(s);
    var rest := SplitReturns(y, count - 1);
    SplitStep(s, count);
    SplitReturnsShape(y, count - 1);
    JoinCons(p, rest[..count - 2]);
    PieceHead(s);
    SqueezeOfPiece(p, y[..i]);
    PrefixPastFirstCut(s, i);
    SuffixPastFirstCut(s, i);
    CharPastFirstCut(s, i);
    TakeOfCons(p, rest, count - 1);
  }

  lemma TakeOfCons(p: string, rest: seq<string>, n: nat)
    requires 1 <= n <= |rest|
    ensures ([p] + rest)[..n] == [p] + rest[..n - 1]
    ensures ([p] + rest)[n] == rest[n - 1]
  {
  }

  /** Joining a piece in front of pieces that are not empty puts a
      separator between them. */
  lemma JoinCons(p: string, xs: seq<string>)
    requires xs != [] && xs[0] != []
    ensures Join("\r", [p] + xs) == p + "\r" + Join("\r", xs)
    ensures Join("\r", xs) != []
  {
    assert ([p] + xs)[1..] == xs;
  }

  /** Text up to a point past the first cut, after its leading carriage
      returns, is the first piece, its carriage return and the text after
      it up to that point. */
  lemma PrefixPastFirstCut(s: string, i: nat)
    requires DropReturns(s) != [] && FirstReturn(DropReturns(s)) < |DropReturns(s)|
    requires i < |AfterFirstPiece(s)|
    ensures var j := LeadingReturns(s) + FirstReturn(DropReturns(s)) + 1 + i;
      SqueezeReturns(s[..j]) == SqueezeReturns(FirstPiece(s) + "\r" + AfterFirstPiece(s)[..i])
  {
    var t := DropReturns(s);
    var f := FirstReturn(t);
    var j := LeadingReturns(s) + f + 1 + i;
    FirstReturnSpec(t);
    DropReturnsOfPrefix(s, j);
    CutPrefix(t, f, i);
    SqueezeOfDropReturns(s[..j]);
  }

  /** Text from a point past the first cut is the text after the first
      piece from that point. */
  lemma SuffixPastFirstCut(s: string, i: nat)
    requires DropReturns(s) != [] && FirstReturn(DropReturns(s)) < |DropReturns(s)|
    requires i < |AfterFirstPiece(s)|
    ensures s[LeadingReturns(s) + FirstReturn(DropReturns(s)) + 1 + i..] == AfterFirstPiece(s)[i..]
  {
    DropTwice(s, LeadingReturns(s), FirstReturn(DropReturns(s)) + 1, i);
  }

  /** The same, one character at a time. */
  lemma CharPastFirstCut(s: string, i: nat)
    requires DropReturns(s) != [] && FirstReturn(DropReturns(s)) < |DropReturns(s)|
    requires i < |AfterFirstPiece(s)|
    ensures s[LeadingReturns(s) + FirstReturn(DropReturns(s)) + 1 + i] == AfterFirstPiece(s)[i]
  {
    DropTwice(s, LeadingReturns(s), FirstReturn(DropReturns(s)) + 1, i);
  }

  lemma DropTwice(s: string, a: nat, b: nat, i: nat)
    requires a + b + i < |s|
    ensures s[a + b + i] == s[a..][b..][i]
    ensures s[a + b + i..] == s[a..][b..][i..]
  {
  }

  /** Cutting `t` at the carriage return at `f`, seen from a point `i` past
      it. */
  lemma CutPrefix(t: string, f: nat, i: nat)
    requires f < |t| && t[f] == '\r' && i < |t| - f - 1
    ensures t[..f + 1 + i] == t[..f] + "\r" + t[f + 1..][..i]
  {
  }

  /** The pieces of a page's text (line 108). */
  function SplitLines(s: string): seq<string> {
    SplitReturns(s, SplitCount)
  }

  /** A text without carriage returns is one piece: line feeds do not
      split it. */
  lemma NoReturnIsOnePiece(s: string)
    requires s != [] && HasNoReturn(s)
    ensures SplitLines(s) == [s]
  {
    assert LeadingReturns(s) == 0;
    assert DropReturns(s) == s;
    FirstReturnSpec(s);
    assert FirstReturn(s) == |s|;
  }

  /** A one-character piece and its carriage return come off the front. */
  lemma SplitOneOff(c: char, rest: string, count: nat)
    requires c != '\r' && 1 < count
    ensures SplitReturns([c, '\r'] + rest, count) == [[c]] + SplitReturns(rest, count - 1)
  {
    var s := [c, '\r'] + rest;
    assert LeadingReturns(s) == 0;
    assert DropReturns(s) == s;
    assert FirstReturn(s) == 1;
    assert s[..1] == [c] && s[2..] == rest;
  }

  /** The last piece the count allows is the whole rest of the text after
      its leading carriage returns, however many carriage returns it
      holds. */
  lemma LastAllowedPieceIsRest(s: string)
    requires DropReturns(s) != []
    ensures SplitReturns(s, 1) == [DropReturns(s)]
  {
  }

  /** With two pieces allowed, "a", "b" and "c" between carriage returns
      give "a" and then "b", a carriage return and "c" as one piece; with
      the count of 10 the same happens from the tenth piece on. */
  lemma SecondPieceKeepsReturns()
    ensures SplitReturns("a\rb\rc", 2) == ["a", "b\rc"]
  {
    assert LeadingReturns("b\rc") == 0;
    assert SplitReturns("b\rc", 1) == ["b\rc"];
    assert "a\rb\rc" == ['a', '\r'] + "b\rc";
    SplitOneOff('a', "b\rc", 2);
  }

  /** A line that survives sanitising: printable ASCII only, not blank. */
  predicate IsSanitised(s: string) {
    && (forall i :: 0 <= i < |s| ==> IsPrintableAscii(s[i]))
    && !IsBlank(s)
  }

  /** Strip every line of non-printable characters, drop the blank ones and
      tag the others with the page number. */
  function SanitiseLines(lines: seq<string>, number: int32): (r: seq<TextChunk>)
    ensures |r| <= |lines|
    ensures forall k :: 0 <= k < |r| ==> r[k].page == number && IsSanitised(r[k].text)
    ensures forall k :: 0 <= k < |r| ==>
      exists j :: 0 <= j < |lines| && r[k].text == KeepPrintable(lines[j])
  {
    if lines == [] then []
    else
      var text := KeepPrintable(lines[0]);
      var head := if IsBlank(text) then [] else [TextChunk(text, number)];
      var rest := SanitiseLines(lines[1..], number);
      assert forall k :: 0 <= k < |rest| ==>
        exists j :: 0 <= j < |lines| && rest[k].text == KeepPrintable(lines[j]) by {
        forall k | 0 <= k < |rest|
          ensures exists j :: 0 <= j < |lines| && rest[k].text == KeepPrintable(lines[j])
        {
          var j :| 0 <= j < |lines[1..]| && rest[k].text == KeepPrintable(lines[1..][j]);
          assert lines[1..][j] == lines[j + 1];
        }
      }
      head + rest
  }

  /** One line is kept, sanitised, exactly when the regex leaves something
      other than white space. */
  lemma SanitiseOneLine(line: string, number: int32)
    ensures var text := KeepPrintable(line);
      SanitiseLines([line], number)
        == if IsBlank(text) then [] else [TextChunk(text, number)]
  {
    assert [line][1..] == [];
  }

  /** The first line comes off the front. */
  lemma SanitiseLinesUncons(lines: seq<string>, number: int32)
    requires lines != []
    ensures SanitiseLines(lines, number)
         == SanitiseLines([lines[0]], number) + SanitiseLines(lines[1..], number)
  {
    assert [lines[0]][1..] == [];
  }

  /** The pipeline handles the lines one at a time and keeps their order:
      the lines of `a + b` are those of `a`, then those of `b`. */
  lemma {:induction false} SanitiseLinesAppend(a: seq<string>, b: seq<string>, number: int32)
    ensures SanitiseLines(a + b, number) == SanitiseLines(a, number) + SanitiseLines(b, number)
    decreases |a|
  {
    if a == [] {
      assert a + b == b;
    } else {
      SanitiseLinesAppend(a[1..], b, number);
      SplitAppendHead(a, b);
      SanitiseLinesUncons(a, number);
      SanitiseLinesUncons(a + b, number);
      AppendAssociates(SanitiseLines([a[0]], number), SanitiseLines(a[1..], number), SanitiseLines(b, number));
    }
  }

  lemma SplitAppendHead(a: seq<string>, b: seq<string>)
    requires a != []
    ensures (a + b)[0] == a[0] && (a + b)[1..] == a[1..] + b
  {
  }

  lemma AppendAssociates(x: seq<TextChunk>, y: seq<TextChunk>, z: seq<TextChunk>)
    ensures x + (y + z) == (x + y) + z
  {
  }

  /** The sanitised lines of one page (the LINQ pipeline of lines 107-115). */
  function SanitisePage(page: PageText): (r: seq<TextChunk>)
    ensures forall k :: 0 <= k < |r| ==> r[k].page == page.number && IsSanitised(r[k].text)
  {
    SanitiseLines(SplitLines(page.words), page.number)
  }

  /** A page whose lines end in line feeds only becomes a single line: the
      line feeds are not split on, and the regex then deletes them. */
  lemma LineFeedsJoinLines(page: PageText)
    requires HasNoReturn(page.words) && !IsBlank(KeepPrintable(page.words))
    ensures SanitisePage(page) == [TextChunk(KeepPrintable(page.words), page.number)]
  {
    NoReturnIsOnePiece(page.words);
  }

  /** "a", a line feed and "b" is read as the single line "ab". */
  lemma LineFeedExample()
    ensures SanitisePage(PageText("a\nb", 1)) == [TextChunk("ab", 1)]
  {
    assert KeepPrintable("a\nb") == "ab";
    LineFeedsJoinLines(PageText("a\nb", 1));
  }

  /** The lines of every page, in page order (the `AddRange` loop). */
  function SanitiseAll(pages: seq<PageText>): seq<TextChunk> {
    if pages == [] then []
    else SanitiseAll(pages[..|pages| - 1]) + SanitisePage(pages[|pages| - 1])
  }

  function Texts(chunks: seq<TextChunk>): seq<string> {
    if chunks == [] then [] else [chunks[0].text] + Texts(chunks[1..])
  }

  lemma {:induction false} TextsAppend(a: seq<TextChunk>, b: seq<TextChunk>)
    ensures Texts(a + b) == Texts(a) + Texts(b)
    decreases |a|
  {
    if a == [] {
      assert a + b == b;
    } else {
      assert (a + b)[0] == a[0] && (a + b)[1..] == a[1..] + b;
      TextsAppend(a[1..], b);
    }
  }

  lemma {:induction false} VisibleCharsWithoutReturns(s: string)
    ensures VisibleChars(WithoutReturns(s)) == VisibleChars(s)
    decreases |s|
  {
    if s != [] {
      VisibleCharsWithoutReturns(s[1..]);
      if s[0] != '\r' {
        assert ([s[0]] + WithoutReturns(s[1..]))[1..] == WithoutReturns(s[1..]);
      }
    }
  }

  lemma {:induction false} SanitiseLinesKeepsVisibleChars(lines: seq<string>, number: int32)
    ensures VisibleChars(Concat(Texts(SanitiseLines(lines, number)))) == VisibleChars(Concat(lines))
    decreases |lines|
  {
    if lines != [] {
      var text := KeepPrintable(lines[0]);
      var head := if IsBlank(text) then [] else [TextChunk(text, number)];
      var rest := SanitiseLines(lines[1..], number);
      SanitiseLinesKeepsVisibleChars(lines[1..], number);
      TextsAppend(head, rest);
      ConcatAppend(Texts(head), Texts(rest));
      VisibleCharsAppend(Concat(Texts(head)), Concat(Texts(rest)));
      VisibleCharsAppend(lines[0], Concat(lines[1..]));
      VisibleCharsOfKeepPrintable(lines[0]);
      if IsBlank(text) {
        VisibleCharsOfBlank(text);
      } else {
        assert Concat(Texts(head)) == text;
      }
    }
  }

  /** Sanitising a page loses only line breaks, spaces, control characters
      and non-ASCII characters: the visible characters of its lines, read in
      order, are exactly the visible characters of the page text. */
  lemma SanitisePageKeepsVisibleChars(page: PageText)
    ensures VisibleChars(Concat(Texts(SanitisePage(page)))) == VisibleChars(page.words)
  {
    SanitiseLinesKeepsVisibleChars(SplitLines(page.words), page.number);
    SplitReturnsKeepsText(page.words, SplitCount);
    VisibleCharsWithoutReturns(page.words);
    VisibleCharsWithoutReturns(Concat(SplitLines(page.words)));
  }

  /** Every line read from the pages is sanitised and carries the number of
      one of the pages. */
  lemma {:induction false} SanitiseAllLines(pages: seq<PageText>)
    ensures forall k :: 0 <= k < |SanitiseAll(pages)| ==>
      IsSanitised(SanitiseAll(pages)[k].text) &&
      exists n :: 0 <= n < |pages| && SanitiseAll(pages)[k].page == pages[n].number
    decreases |pages|
  {
    if pages != [] {
      var init := pages[..|pages| - 1];
      SanitiseAllLines(init);
      var r := SanitiseAll(pages);
      forall k | 0 <= k < |r|
        ensures IsSanitised(r[k].text)
        ensures exists n :: 0 <= n < |pages| && r[k].page == pages[n].number
      {
        if k < |SanitiseAll(init)| {
          var n :| 0 <= n < |init| && SanitiseAll(init)[k].page == init[n].number;
          assert init[n] == pages[n];
        } else {
          assert r[k] == SanitisePage(pages[|pages| - 1])[k - |SanitiseAll(init)|];
        }
      }
    }
  }

  /** Reads the pages one by one and appends each page's sanitised lines
      (lines 102-118, with the PDF reader replaced by its output). */
  method ReadPages(pages: seq<PageText>) returns (contents: seq<TextChunk>)
    ensures contents == SanitiseAll(pages)
  {
    contents := [];
    for n := 0 to |pages|
      invariant contents == SanitiseAll(pages[..n])
    {
      assert pages[..n + 1][..n] == pages[..n];
      contents := contents + SanitisePage(pages[n]);
    }
    assert pages[..|pages|] == pages;
  }

  // ---------------------------------------------------------------------
  // Splitting long lines (lines 121-157)
  // ---------------------------------------------------------------------

  /** `Regex.Replace(s.Trim(), @"(\.){2,}", ".")`: what is kept of a slice. */
  function Tidy(s: string): (r: string)
    ensures |r| <= |s|
  {
    CollapsePeriods(Trim(s))
  }

  /** A chunk text as the splitter leaves it: no white space at either end
      and no two periods in a row. */
  predicate IsTidy(s: string) {
    && (s == [] || (!IsWhiteSpace(s[0]) && !IsWhiteSpace(s[|s| - 1])))
    && !HasDoublePeriod(s)
  }

  /** Tidying leaves a tidy text made of characters of `s`, empty exactly
      when `s` is blank. */
  lemma TidyProperties(s: string)
    ensures IsTidy(Tidy(s))
    ensures Tidy(s) == [] <==> IsBlank(s)
    ensures forall c :: c in Tidy(s) ==> c in s
  {
    TrimProperties(s);
    CollapseProperties(Trim(s));
    CollapseKeepsChars(Trim(s));
    var i: nat :| i <= |s| - |Trim(s)| && OccursAt(s, Trim(s), i);
    forall c | c in Trim(s) ensures c in s {
      var j :| 0 <= j < |Trim(s)| && Trim(s)[j] == c;
      assert s[i + j] == c;
    }
  }

  /** A tidy text is left as it is; so tidying twice is tidying once. */
  lemma TidyOfTidy(s: string)
    requires IsTidy(s)
    ensures Tidy(s) == s
  {
    assert TrimStart(s) == s;
    assert TrimEnd(s) == s;
    CollapseIdentity(s);
  }

  lemma TidyIdempotent(s: string)
    ensures Tidy(Tidy(s)) == Tidy(s)
  {
    TidyProperties(s);
    TidyOfTidy(Tidy(s));
  }

  /** The cut rule: `cut` is the last space in positions `index + 1 ..
      index + maxLength`, or `index + maxLength` when that window holds no
      space. */
  predicate IsCut(t: string, index: nat, maxLength: nat, cut: nat)
    requires index + maxLength < |t|
  {
    || (index < cut <= index + maxLength && t[cut] == ' '
        && forall k :: cut < k <= index + maxLength ==> t[k] != ' ')
    || (cut == index + maxLength
        && forall k :: index < k <= index + maxLength ==> t[k] != ' ')
  }

  /** Where the splitter cuts a line that is too long from `index` on
      (lines 140-144). */
  function CutPoint(t: string, index: nat, maxLength: nat): (cut: nat)
    requires 0 < maxLength && index + maxLength < |t|
    ensures index < cut <= index + maxLength
  {
    var lastIndexOfBreak := LastIndexOf(t, ' ', index + maxLength, maxLength);
    if lastIndexOfBreak <= index then index + maxLength else lastIndexOfBreak
  }

  /** The splitter cuts at the last space of the window, or at its end when
      the window holds none. */
  lemma CutPointFollowsRule(t: string, index: nat, maxLength: nat)
    requires 0 < maxLength && index + maxLength < |t|
    ensures IsCut(t, index, maxLength, CutPoint(t, index, maxLength))
  {
    LastIndexOfFindsLast(t, ' ', index + maxLength, maxLength);
  }

  /** The cut rule picks one position: whatever satisfies it is the cut. */
  lemma CutIsUnique(t: string, index: nat, maxLength: nat, cut: nat)
    requires 0 < maxLength && index + maxLength < |t|
    requires IsCut(t, index, maxLength, cut)
    ensures cut == CutPoint(t, index, maxLength)
  {
    CutPointFollowsRule(t, index, maxLength);
  }

  /** A raw slice `t[start..end]` of a line, before tidying. */
  datatype Slice = Slice(start: nat, end: nat)

  /** The slices the splitting loop takes from `t`, starting at `index`;
      there are none exactly when `index` is at the end of `t`. */
  function Slices(t: string, maxLength: nat, index: nat): (r: seq<Slice>)
    requires 0 < maxLength && index <= |t|
    ensures r == [] <==> index == |t|
    decreases |t| - index
  {
    if index == |t| then []
    else if index + maxLength >= |t| then [Slice(index, |t|)]
    else
      var cut := CutPoint(t, index, maxLength);
      [Slice(index, cut)] + Slices(t, maxLength, cut + 1)
  }

  /** Where a slice starting at `start` ends: at the cut when the rest of the
      line does not fit, else at the end of the line. */
  function SliceEnd(t: string, maxLength: nat, start: nat): nat
    requires 0 < maxLength
  {
    if start + maxLength < |t| then CutPoint(t, start, maxLength) else |t|
  }

  /** One turn of the loop: the first slice runs from `index` to its end,
      and the rest are the slices after that end, if any. */
  lemma SlicesUnfold(t: string, maxLength: nat, index: nat)
    requires 0 < maxLength && index < |t|
    ensures var e, r := SliceEnd(t, maxLength, index), Slices(t, maxLength, index);
      && r[0] == Slice(index, e)
      && (e < |t| ==> r[1..] == Slices(t, maxLength, e + 1))
      && (e >= |t| ==> |r| == 1)
  {
    var e, r := SliceEnd(t, maxLength, index), Slices(t, maxLength, index);
    if e < |t| {
      assert r == [Slice(index, e)] + Slices(t, maxLength, e + 1);
    }
  }

  /** Slice `k` is non-empty, lies within `t` after `index`, and is at
      most `maxLength` long. */
  lemma {:induction false} SliceWithin(t: string, maxLength: nat, index: nat, k: nat)
    requires 0 < maxLength && index <= |t| && k < |Slices(t, maxLength, index)|
    ensures var s := Slices(t, maxLength, index)[k];
      index <= s.start < s.end <= |t| && s.end - s.start <= maxLength
    decreases k
  {
    SlicesUnfold(t, maxLength, index);
    if k > 0 {
      SliceWithin(t, maxLength, SliceEnd(t, maxLength, index) + 1, k - 1);
    }
  }

  /** Slice `k` ends where the cut rule says. */
  lemma {:induction false} SliceEndAt(t: string, maxLength: nat, index: nat, k: nat)
    requires 0 < maxLength && index <= |t| && k < |Slices(t, maxLength, index)|
    ensures var s := Slices(t, maxLength, index)[k]; s.end == SliceEnd(t, maxLength, s.start)
    decreases k
  {
    SlicesUnfold(t, maxLength, index);
    if k > 0 {
      var e := SliceEnd(t, maxLength, index);
      SliceEndAt(t, maxLength, e + 1, k - 1);
    }
  }

  /** The slice after slice `k` starts one position after it ends: the cut
      itself belongs to no slice. */
  lemma {:induction false} SliceNextStart(t: string, maxLength: nat, index: nat, k: nat)
    requires 0 < maxLength && index <= |t| && k + 1 < |Slices(t, maxLength, index)|
    ensures var r := Slices(t, maxLength, index); r[k + 1].start == r[k].end + 1
    decreases k
  {
    var e := SliceEnd(t, maxLength, index);
    SlicesUnfold(t, maxLength, index);
    if k > 0 {
      SliceNextStart(t, maxLength, e + 1, k - 1);
    } else {
      SlicesUnfold(t, maxLength, e + 1);
    }
  }

  /** The last slice ends at the end of the line or, when the last cut
      falls on the last character, one position before it. */
  lemma {:induction false} LastSliceEnd(t: string, maxLength: nat, index: nat, k: nat)
    requires 0 < maxLength && index <= |t| && k + 1 == |Slices(t, maxLength, index)|
    ensures |t| - 1 <= Slices(t, maxLength, index)[k].end
    decreases k
  {
    var e := SliceEnd(t, maxLength, index);
    SlicesUnfold(t, maxLength, index);
    if k > 0 {
      LastSliceEnd(t, maxLength, e + 1, k - 1);
    }
  }

  /** A slice whose rest of line does not fit runs to the cut the rule
      prescribes; otherwise it runs to the end of the line. */
  predicate FollowsCutRule(t: string, maxLength: nat, s: Slice) {
    if s.start + maxLength < |t| then IsCut(t, s.start, maxLength, s.end) else s.end == |t|
  }

  /** Every slice the loop takes follows the cut rule, the first one starts
      at `index`, each next one one position after the previous cut, and
      the last one reaches the end of the line or the position before it. */
  lemma SlicesFollowCutRule(t: string, maxLength: nat, index: nat)
    requires 0 < maxLength && index < |t|
    ensures var r := Slices(t, maxLength, index);
      && r[0].start == index
      && |t| - 1 <= r[|r| - 1].end
      && (forall k :: 0 <= k < |r| ==> FollowsCutRule(t, maxLength, r[k]))
      && (forall k :: 0 < k < |r| ==> r[k].start == r[k - 1].end + 1)
  {
    var r := Slices(t, maxLength, index);
    SlicesUnfold(t, maxLength, index);
    LastSliceEnd(t, maxLength, index, |r| - 1);
    forall k | 0 <= k < |r| ensures FollowsCutRule(t, maxLength, r[k]) {
      SliceEndAt(t, maxLength, index, k);
      if r[k].start + maxLength < |t| {
        CutPointFollowsRule(t, r[k].start, maxLength);
      }
    }
    forall k | 0 < k < |r| ensures r[k].start == r[k - 1].end + 1 {
      SliceNextStart(t, maxLength, index, k - 1);
    }
  }


  /** Each cut moves the loop index on by at least 2, so a line of length
      `n` gives at most `(n + 1) / 2` chunks, even with no space in it. */
  lemma {:induction false} SliceCountBound(t: string, maxLength: nat, index: nat)
    requires 0 < maxLength && index <= |t|
    ensures |Slices(t, maxLength, index)| <= (|t| - index + 1) / 2
    decreases |t| - index
  {
    if index < |t| {
      var e := SliceEnd(t, maxLength, index);
      SlicesUnfold(t, maxLength, index);
      if e < |t| {
        SliceCountBound(t, maxLength, e + 1);
      }
    }
  }

  /** On a line with no space at all every cut is forced: every slice that
      does not reach the end of the line is exactly `maxLength` long, and the
      character at its cut, which is not a space, is dropped. */
  lemma NoSpaceForcesFixedWidth(t: string, maxLength: nat)
    requires 0 < maxLength
    requires forall i :: 0 <= i < |t| ==> t[i] != ' '
    ensures var r := Slices(t, maxLength, 0);
      forall k :: 0 <= k < |r| ==>
        r[k].end < |t| ==> r[k].end == r[k].start + maxLength && t[r[k].end] != ' '
  {
    if t != [] {
      SlicesFollowCutRule(t, maxLength, 0);
    }
  }

  /** The characters of `t` a slice covers. */
  function Piece(t: string, s: Slice): string {
    if s.start <= s.end <= |t| then t[s.start..s.end] else []
  }

  /** The tidied text of every slice, tagged with the line's page. */
  function ChunksOfSlices(t: string, page: int32, slices: seq<Slice>): (r: seq<TextChunk>)
    ensures |r| == |slices|
  {
    seq(|slices|, k requires 0 <= k < |slices| => TextChunk(Tidy(Piece(t, slices[k])), page))
  }

  /** Tidying one more slice appends one chunk. */
  lemma ChunksOfSlicesSnoc(t: string, page: int32, slices: seq<Slice>, s: Slice)
    ensures ChunksOfSlices(t, page, slices + [s])
         == ChunksOfSlices(t, page, slices) + [TextChunk(Tidy(Piece(t, s)), page)]
  {
  }

  /** The loop invariant of `SplitLine` after the slices `done`, with the
      splitter at `index` and `chunks` built: `done` are the first slices of
      the line, `index` is where the rest starts, and `chunks` are the
      tidied texts of `done`. */
  predicate SplitState(content: TextChunk, maxLength: nat, index: nat,
                       done: seq<Slice>, chunks: seq<TextChunk>)
    requires 0 < maxLength
  {
    && index <= |content.text|
    && done + Slices(content.text, maxLength, index) == Slices(content.text, maxLength, 0)
    && chunks == ChunksOfSlices(content.text, content.page, done)
  }

  /** Before the first turn nothing is taken and nothing is built. */
  lemma SplitStart(content: TextChunk, maxLength: nat)
    requires 0 < maxLength
    ensures SplitState(content, maxLength, 0, [], [])
  {
  }

  /** The slices taken so far, followed by those from `index` on, stay all
      the slices of the line when the slice up to the cut moves from the
      second part to the first. */
  lemma SlicesAfterCut(t: string, maxLength: nat, index: nat, done: seq<Slice>)
    requires 0 < maxLength && index + maxLength < |t|
    requires done + Slices(t, maxLength, index) == Slices(t, maxLength, 0)
    ensures var cut := CutPoint(t, index, maxLength);
      (done + [Slice(index, cut)]) + Slices(t, maxLength, cut + 1) == Slices(t, maxLength, 0)
  {
    var cut := CutPoint(t, index, maxLength);
    var rest := Slices(t, maxLength, cut + 1);
    assert Slices(t, maxLength, index) == [Slice(index, cut)] + rest;
    assert done + ([Slice(index, cut)] + rest) == (done + [Slice(index, cut)]) + rest;
  }

  /** A turn of the splitter on a line still too long from `index` on
      keeps the loop invariant of `SplitLine`: the slice up to the cut joins
      the slices taken so far, its tidied text joins the chunks, and the
      splitter goes on from just after the cut. */
  lemma CutStep(content: TextChunk, maxLength: nat, index: nat, done: seq<Slice>,
                chunks: seq<TextChunk>, cut: nat)
    requires 0 < maxLength && index + maxLength < |content.text|
    requires SplitState(content, maxLength, index, done, chunks)
    requires cut == CutPoint(content.text, index, maxLength)
    ensures index < cut < |content.text|
    ensures SplitState(content, maxLength, cut + 1, done + [Slice(index, cut)],
                       chunks + [TextChunk(Tidy(content.text[index..cut]), content.page)])
  {
    SlicesAfterCut(content.text, maxLength, index, done);
    ChunksOfSlicesSnoc(content.text, content.page, done, Slice(index, cut));
  }

  /** The last turn of the splitter: the rest of the line fits, and its
      tidied text completes the chunks of the line. */
  lemma LastStep(content: TextChunk, maxLength: nat, index: nat, done: seq<Slice>,
                 chunks: seq<TextChunk>)
    requires 0 < maxLength && index < |content.text| <= index + maxLength
    requires SplitState(content, maxLength, index, done, chunks)
    ensures chunks + [TextChunk(Tidy(content.text[index..]), content.page)]
         == LineChunks(content, maxLength)
  {
    var t := content.text;
    assert t[index..|t|] == t[index..];
    ChunksOfSlicesSnoc(t, content.page, done, Slice(index, |t|));
  }

  /** A splitter that has reached the end of the line has built all its
      chunks. */
  lemma EndStep(content: TextChunk, maxLength: nat, done: seq<Slice>, chunks: seq<TextChunk>)
    requires 0 < maxLength
    requires SplitState(content, maxLength, |content.text|, done, chunks)
    ensures chunks == LineChunks(content, maxLength)
  {
    assert done + [] == done;
  }

  /** What the splitter makes of one line: the tidied texts of its
      slices. */
  function LineChunks(content: TextChunk, maxLength: nat): seq<TextChunk>
    requires 0 < maxLength
  {
    ChunksOfSlices(content.text, content.page, Slices(content.text, maxLength, 0))
  }

  /** Chunk `k` of a line is at most `maxLength` long, tidy, made of
      characters of the line, and carries the line's page. */
  lemma LineChunkAt(content: TextChunk, maxLength: nat, k: nat)
    requires 0 < maxLength && k < |LineChunks(content, maxLength)|
    ensures var c := LineChunks(content, maxLength)[k];
      && |c.text| <= maxLength && IsTidy(c.text) && c.page == content.page
      && forall ch :: ch in c.text ==> ch in content.text
  {
    var t := content.text;
    var slices := Slices(t, maxLength, 0);
    SliceWithin(t, maxLength, 0, k);
    var piece := t[slices[k].start..slices[k].end];
    TidyProperties(piece);
    forall ch | ch in piece ensures ch in t {
      var j :| 0 <= j < |piece| && piece[j] == ch;
      assert t[slices[k].start + j] == ch;
    }
  }

  /** The chunks of one line: each at most `maxLength` long, tidy, and
      tagged with the line's page; a non-empty line yields at least one
      chunk, and a line of at most `maxLength` characters yields exactly its
      own tidied text. */
  lemma LineChunksProperties(content: TextChunk, maxLength: nat)
    requires 0 < maxLength
    ensures var r := LineChunks(content, maxLength);
      && (forall k :: 0 <= k < |r| ==>
            |r[k].text| <= maxLength && IsTidy(r[k].text) && r[k].page == content.page)
      && (content.text != [] <==> |r| >= 1)
      && (0 < |content.text| <= maxLength ==>
            r == [TextChunk(Tidy(content.text), content.page)])
  {
    var r := LineChunks(content, maxLength);
    forall k | 0 <= k < |r|
      ensures |r[k].text| <= maxLength && IsTidy(r[k].text) && r[k].page == content.page
    {
      LineChunkAt(content, maxLength, k);
    }
    if 0 < |content.text| <= maxLength {
      var t := content.text;
      assert Slices(t, maxLength, 0) == [Slice(0, |t|)];
      assert Piece(t, Slice(0, |t|)) == t;
      assert r[0] == TextChunk(Tidy(t), content.page);
    }
  }

  /** Where the loop of `SplitLine` cuts (lines 140-144): the last space of
      the window, or the window's end when `LastIndexOf` finds none after
      `index`. */
  method FindCut(t: string, index: nat, maxLength: nat) returns (lastIndexOfBreak: int)
    requires 0 < maxLength && index + maxLength < |t|
    ensures lastIndexOfBreak == CutPoint(t, index, maxLength)
  {
    lastIndexOfBreak := LastIndexOf(t, ' ', index + maxLength, maxLength);
    if lastIndexOfBreak <= index {
      lastIndexOfBreak := index + maxLength;
    }
  }

  /** Splits one line (the `while` loop of lines 127-152). */
  method SplitLine(content: TextChunk, maxLength: nat) returns (contentChunks: seq<TextChunk>)
    requires 0 < maxLength
    ensures contentChunks == LineChunks(content, maxLength)
  {
    var index := 0;
    contentChunks := [];
    ghost var done: seq<Slice> := [];
    SplitStart(content, maxLength);
    while index < |content.text|
      invariant SplitState(content, maxLength, index, done, contentChunks)
      decreases |content.text| - index
    {
      if index + maxLength >= |content.text| {
        LastStep(content, maxLength, index, done, contentChunks);
        contentChunks := contentChunks + [TextChunk(Tidy(content.text[index..]), content.page)];
        return;
      }
      var lastIndexOfBreak := FindCut(content.text, index, maxLength);
      CutStep(content, maxLength, index, done, contentChunks, lastIndexOfBreak);
      contentChunks := contentChunks + [TextChunk(Tidy(content.text[index..lastIndexOfBreak]), content.page)];
      done := done + [Slice(index, lastIndexOfBreak)];
      index := lastIndexOfBreak + 1;
    }
    EndStep(content, maxLength, done, contentChunks);
  }

  /** The chunks of all lines, line after line. */
  function SplitAll(lines: seq<TextChunk>, maxLength: nat): seq<TextChunk>
    requires 0 < maxLength
  {
    if lines == [] then []
    else SplitAll(lines[..|lines| - 1], maxLength) + LineChunks(lines[|lines| - 1], maxLength)
  }

  /** Replaces every line of `lines` by its chunks, in place (lines 124-157):
      the line at `i` is removed, its chunks are inserted at `i`, and `i`
      jumps past them. */
  method SplitContents(lines: seq<TextChunk>, maxLength: nat) returns (contents: seq<TextChunk>)
    requires 0 < maxLength
    ensures contents == SplitAll(lines, maxLength)
  {
    contents := lines;
    var i: int := 0;
    ghost var done := 0;
    while i < |contents|
      invariant 0 <= done <= |lines| && 0 <= i <= |contents|
      invariant contents[..i] == SplitAll(lines[..done], maxLength)
      invariant contents[i..] == lines[done..]
      decreases |contents| - i
    {
      var content := contents[i];
      var contentChunks := SplitLine(content, maxLength);
      contents := contents[..i] + contents[i + 1..];
      contents := contents[..i] + contentChunks + contents[i..];
      i := i + |contentChunks| - 1;
      i := i + 1;
      assert lines[..done + 1][..done] == lines[..done];
      assert lines[done] == content;
      done := done + 1;
    }
    assert lines[..done] == lines;
  }

  /** Every chunk of the rewritten list is a chunk of one of the lines. */
  lemma {:induction false} SplitAllChunkFrom(lines: seq<TextChunk>, maxLength: nat, k: nat)
    requires 0 < maxLength && k < |SplitAll(lines, maxLength)|
    ensures exists i, j ::
      && 0 <= i < |lines| && 0 <= j < |LineChunks(lines[i], maxLength)|
      && SplitAll(lines, maxLength)[k] == LineChunks(lines[i], maxLength)[j]
    decreases |lines|
  {
    var n := |lines| - 1;
    var init := SplitAll(lines[..n], maxLength);
    if k < |init| {
      SplitAllChunkFrom(lines[..n], maxLength, k);
      var i, j :| 0 <= i < n && 0 <= j < |LineChunks(lines[..n][i], maxLength)|
        && init[k] == LineChunks(lines[..n][i], maxLength)[j];
      assert lines[..n][i] == lines[i];
    } else {
      assert SplitAll(lines, maxLength)[k] == LineChunks(lines[n], maxLength)[k - |init|];
    }
  }

  /** When no line is empty, every line yields at least one chunk. */
  lemma {:induction false} SplitAllCoversLines(lines: seq<TextChunk>, maxLength: nat)
    requires 0 < maxLength
    requires forall i :: 0 <= i < |lines| ==> lines[i].text != []
    ensures |SplitAll(lines, maxLength)| >= |lines|
    decreases |lines|
  {
    if lines != [] {
      var n := |lines| - 1;
      SplitAllCoversLines(lines[..n], maxLength);
      LineChunksProperties(lines[n], maxLength);
    }
  }

  /** The chunking part of the indexing handler: read the pages, then split
      every line to at most 512 characters (lines 98-157). */
  method ChunkDocument(pages: seq<PageText>) returns (contents: seq<TextChunk>)
    ensures contents == SplitAll(SanitiseAll(pages), MaxChunkLength)
  {
    contents := ReadPages(pages);
    contents := SplitContents(contents, MaxChunkLength);
  }

  /** Every chunk handed to the index is at most 512 characters of printable
      ASCII, tidy, and carries the number of one of the pages; every line of
      the pages yields at least one chunk. */
  lemma DocumentChunks(pages: seq<PageText>)
    ensures var lines := SanitiseAll(pages);
      var out := SplitAll(lines, MaxChunkLength);
      && |out| >= |lines|
      && (forall i :: 0 <= i < |lines| ==> |LineChunks(lines[i], MaxChunkLength)| >= 1)
      && forall k :: 0 <= k < |out| ==>
           && |out[k].text| <= MaxChunkLength && IsTidy(out[k].text)
           && (forall ch :: ch in out[k].text ==> IsPrintableAscii(ch))
           && exists n :: 0 <= n < |pages| && out[k].page == pages[n].number
  {
    var lines := SanitiseAll(pages);
    var out := SplitAll(lines, MaxChunkLength);
    SanitiseAllLines(pages);
    forall k | 0 <= k < |out|
      ensures |out[k].text| <= MaxChunkLength && IsTidy(out[k].text)
      ensures forall ch :: ch in out[k].text ==> IsPrintableAscii(ch)
      ensures exists n :: 0 <= n < |pages| && out[k].page == pages[n].number
    {
      SplitAllChunkFrom(lines, MaxChunkLength, k);
      var i, j :| 0 <= i < |lines| && 0 <= j < |LineChunks(lines[i], MaxChunkLength)|
        && out[k] == LineChunks(lines[i], MaxChunkLength)[j];
      LineChunkAt(lines[i], MaxChunkLength, j);
      assert IsSanitised(lines[i].text);
    }
    forall i | 0 <= i < |lines|
      ensures lines[i].text != [] && |LineChunks(lines[i], MaxChunkLength)| >= 1
    {
      assert IsSanitised(lines[i].text);
      LineChunksProperties(lines[i], MaxChunkLength);
    }
    SplitAllCoversLines(lines, MaxChunkLength);
  }

  // ---------------------------------------------------------------------
  // Worked examples
  // ---------------------------------------------------------------------

  /** A text without periods and without white space at either end is left
      unchanged by tidying; the examples below use it on their pieces. */
  lemma TidyKeepsPlainText(s: string)
    requires '.' !in s
    requires s == [] || (!IsWhiteSpace(s[0]) && !IsWhiteSpace(s[|s| - 1]))
    ensures Tidy(s) == s
  {
    assert !HasDoublePeriod(s);
    TidyOfTidy(s);
  }

  // The pieces of the examples below, one text per lemma: kept apart so
  // that each example's proof sees only the facts it needs.
  lemma TidyAbc() ensures Tidy("abc") == "abc" { TidyKeepsPlainText("abc"); }
  lemma TidyEfg() ensures Tidy("efg") == "efg" { TidyKeepsPlainText("efg"); }
  lemma TidyAb() ensures Tidy("ab") == "ab" { TidyKeepsPlainText("ab"); }
  lemma TidyCd() ensures Tidy("cd") == "cd" { TidyKeepsPlainText("cd"); }
  lemma TidyC() ensures Tidy("c") == "c" { TidyKeepsPlainText("c"); }
  lemma TidySpace() ensures Tidy(" ") == "" { TidyProperties(" "); }
  lemma TidyAlphaBeta() ensures Tidy("alpha beta") == "alpha beta" { TidyKeepsPlainText("alpha beta"); }
  lemma TidyGamma() ensures Tidy("gamma") == "gamma" { TidyKeepsPlainText("gamma"); }

  /** `maxLength = 11` on "alpha beta gamma": the first cut falls on the
      space after "alpha beta", and the rest, "gamma", fits. */
  lemma AlphaBetaGammaSlices()
    ensures Slices("alpha beta gamma", 11, 0) == [Slice(0, 10), Slice(11, 16)]
    ensures Piece("alpha beta gamma", Slice(0, 10)) == "alpha beta"
    ensures Piece("alpha beta gamma", Slice(11, 16)) == "gamma"
  {
    assert CutPoint("alpha beta gamma", 0, 11) == 10;
    assert Slices("alpha beta gamma", 11, 11) == [Slice(11, 16)];
  }

  lemma SpaceCutSlices()
    ensures Slices("ab cd", 3, 0) == [Slice(0, 2), Slice(3, 5)]
    ensures Piece("ab cd", Slice(0, 2)) == "ab"
    ensures Piece("ab cd", Slice(3, 5)) == "cd"
  {
    assert CutPoint("ab cd", 0, 3) == 2;
    assert Slices("ab cd", 3, 3) == [Slice(3, 5)];
  }

  /** A line cut into two slices whose pieces are already tidy gives those
      two pieces as its chunks. */
  lemma TwoTidyPieces(t: string, page: int32, maxLength: nat, a: string, b: string)
    requires 0 < maxLength
    requires |Slices(t, maxLength, 0)| == 2
    requires Piece(t, Slices(t, maxLength, 0)[0]) == a && Tidy(a) == a
    requires Piece(t, Slices(t, maxLength, 0)[1]) == b && Tidy(b) == b
    ensures LineChunks(TextChunk(t, page), maxLength) == [TextChunk(a, page), TextChunk(b, page)]
  {
  }

  /** The chunks of "alpha beta gamma" with `maxLength = 11`. */
  lemma AlphaBetaGamma()
    ensures LineChunks(TextChunk("alpha beta gamma", 1), 11)
         == [TextChunk("alpha beta", 1), TextChunk("gamma", 1)]
  {
    AlphaBetaGammaSlices();
    TidyAlphaBeta();
    TidyGamma();
    TwoTidyPieces("alpha beta gamma", 1, 11, "alpha beta", "gamma");
  }

  /** `maxLength = 3` on "ab cd": the cut falls on the space, which no chunk
      keeps. */
  lemma CutAtSpace()
    ensures LineChunks(TextChunk("ab cd", 1), 3)
         == [TextChunk("ab", 1), TextChunk("cd", 1)]
  {
    SpaceCutSlices();
    TidyAb();
    TidyCd();
    TwoTidyPieces("ab cd", 1, 3, "ab", "cd");
  }

  lemma ForcedCutSlices()
    ensures Slices("abcdefg", 3, 0) == [Slice(0, 3), Slice(4, 7)]
    ensures Piece("abcdefg", Slice(0, 3)) == "abc"
    ensures Piece("abcdefg", Slice(4, 7)) == "efg"
  {
    assert CutPoint("abcdefg", 0, 3) == 3;
    assert Slices("abcdefg", 3, 4) == [Slice(4, 7)];
  }

  /** A forced cut drops a character that is not a space: "abcdefg" with
      `maxLength = 3` loses its "d". */
  lemma ForcedCutDropsCharacter()
    ensures LineChunks(TextChunk("abcdefg", 1), 3)
         == [TextChunk("abc", 1), TextChunk("efg", 1)]
  {
    ForcedCutSlices();
    TidyAbc();
    TidyEfg();
    TwoTidyPieces("abcdefg", 1, 3, "abc", "efg");
  }

  lemma BlankSliceSlices()
    ensures Slices("ab   c", 2, 0) == [Slice(0, 2), Slice(3, 4), Slice(5, 6)]
    ensures Piece("ab   c", Slice(0, 2)) == "ab"
    ensures Piece("ab   c", Slice(3, 4)) == " "
    ensures Piece("ab   c", Slice(5, 6)) == "c"
  {
    assert CutPoint("ab   c", 0, 2) == 2;
    assert CutPoint("ab   c", 3, 2) == 4;
    assert Slices("ab   c", 2, 5) == [Slice(5, 6)];
    assert Slices("ab   c", 2, 3) == [Slice(3, 4), Slice(5, 6)];
  }

  /** A slice made only of spaces yields an empty chunk: "ab   c" with
      `maxLength = 2` gives "ab", "" and "c". */
  lemma BlankSliceGivesEmptyChunk()
    ensures LineChunks(TextChunk("ab   c", 1), 2)
         == [TextChunk("ab", 1), TextChunk("", 1), TextChunk("c", 1)]
  {
    BlankSliceSlices();
    TidyAb();
    TidyC();
    TidySpace();
    var r := LineChunks(TextChunk("ab   c", 1), 2);
    assert r[0] == TextChunk("ab", 1);
    assert r[1] == TextChunk("", 1);
    assert r[2] == TextChunk("c", 1);
  }
}
