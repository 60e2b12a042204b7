/** The descriptor classifier at the head of `CalculateAddress`: a token is cut
    on '-', '/' and '%', and three guarded branches, tried in order, pick the
    range form `A-B`, the CIDR form `A/N` or the explicit-mask form `A%M`. */
module Descriptor {

  /** The span `Split` extension, as assumed here: cut at every occurrence of
      the separator and keep empty pieces. */
  function Split(s: string, sep: char): (parts: seq<string>)
    ensures |parts| >= 1
    ensures forall i :: 0 <= i < |parts| ==> sep !in parts[i]
    decreases |s|
  {
    if s == [] then [[]]
    else
      var rest := Split(s[1..], sep);
      if s[0] == sep then [[]] + rest
      else [[s[0]] + rest[0]] + rest[1..]
  }

  /** The pieces put back together, one separator between neighbours. */
  function Join(parts: seq<string>, sep: char): string
    requires |parts| >= 1
    decreases |parts|
  {
    if |parts| == 1 then parts[0] else parts[0] + [sep] + Join(parts[1..], sep)
  }

  /** `ElementAtOrDefault`: the i-th piece, or the empty span when absent. */
  function ElementAtOrDefault(parts: seq<string>, i: nat): (r: string)
    ensures i < |parts| ==> r == parts[i]
    ensures r in parts || r == []
  {
    if i < |parts| then parts[i] else []
  }

  /** Piece i of `s` cut on `sep`, as `CalculateAddress` reads it: free of the
      separator; piece 0 opens the token and is all of it when the separator
      does not occur; later pieces are then empty. */
  function Segment(s: string, sep: char, i: nat): (r: string)
    ensures sep !in r
    ensures i == 0 ==> r <= s && (sep !in s ==> r == s)
    ensures i > 0 && sep !in s ==> r == []
  {
    FirstPieceOpens(s, sep);
    ElementAtOrDefault(Split(s, sep), i)
  }

  /** The first piece of a split opens the text; without the separator it is
      the only piece. */
  lemma FirstPieceOpens(s: string, sep: char)
    ensures Split(s, sep)[0] <= s
    ensures sep !in s ==> Split(s, sep) == [s]
  {
    var parts := Split(s, sep);
    JoinSplit(s, sep);
    if |parts| > 1 {
      JoinPrefix(parts, sep);
    }
    if sep !in s {
      SplitPlain(s, sep);
    }
  }

  /** No separator the classifier looks at. */
  predicate Plain(s: string)
  {
    '-' !in s && '/' !in s && '%' !in s
  }

  /** The form a token is read in; `Malformed` is the
      "Invalid address range syntax" exception. */
  datatype Form =
    | Range(start: string, end: string)
    | Cidr(address: string, bitCount: string)
    | MaskForm(address: string, mask: string)
    | Malformed

  function Classify(arg: string): (f: Form)
    ensures f.Range? ==> f.start != [] && f.end != [] && '-' !in f.start && '-' !in f.end
    ensures f.Cidr? ==> f.address != [] && f.bitCount != [] && '/' !in f.address && '/' !in f.bitCount
    ensures f.MaskForm? ==> f.address != [] && f.mask != [] && '%' !in f.address && '%' !in f.mask
    ensures Plain(arg) ==> f.Malformed?
  {
    var startAddress := Segment(arg, '-', 0);
    var endAddress := Segment(arg, '-', 1);
    var netAddress := Segment(arg, '/', 0);
    var bitCount := Segment(arg, '/', 1);
    var maskNetwork := Segment(arg, '%', 0);
    var mask := Segment(arg, '%', 1);
    if startAddress != [] && endAddress != [] && bitCount == [] then
      Range(startAddress, endAddress)
    else if netAddress != [] && bitCount != [] && endAddress == [] then
      Cidr(netAddress, bitCount)
    else if maskNetwork != [] && mask != [] then
      MaskForm(maskNetwork, mask)
    else
      Malformed
  }

  /** Splitting undoes joining: the pieces and the text determine each other. */
  lemma {:induction false} JoinSplit(s: string, sep: char)
    ensures Join(Split(s, sep), sep) == s
    decreases |s|
  {
    if s != [] {
      var rest := Split(s[1..], sep);
      JoinSplit(s[1..], sep);
      if s[0] == sep {
        assert ([[]] + rest)[1..] == rest;
      } else {
        var parts := [[s[0]] + rest[0]] + rest[1..];
        if |rest| > 1 {
          assert parts[1..] == rest[1..];
          assert Join(rest, sep) == rest[0] + [sep] + Join(rest[1..], sep);
        }
        assert s == [s[0]] + s[1..];
      }
    }
  }

  lemma {:induction false} SplitPlain(p: string, sep: char)
    requires sep !in p
    ensures Split(p, sep) == [p]
    decreases |p|
  {
    if p != [] {
      SplitPlain(p[1..], sep);
      assert p == [p[0]] + p[1..];
    }
  }

  lemma {:induction false} SplitCons(p: string, sep: char, t: string)
    requires sep !in p
    ensures Split(p + [sep] + t, sep) == [p] + Split(t, sep)
    decreases |p|
  {
    var s := p + [sep] + t;
    if p == [] {
      assert s[1..] == t;
    } else {
      assert s[1..] == p[1..] + [sep] + t;
      SplitCons(p[1..], sep, t);
      assert p == [p[0]] + p[1..];
    }
  }

  /** Joining undoes splitting for separator-free pieces. */
  lemma {:induction false} SplitJoin(parts: seq<string>, sep: char)
    requires |parts| >= 1
    requires forall i :: 0 <= i < |parts| ==> sep !in parts[i]
    ensures Split(Join(parts, sep), sep) == parts
    decreases |parts|
  {
    if |parts| == 1 {
      SplitPlain(parts[0], sep);
    } else {
      SplitJoin(parts[1..], sep);
      SplitCons(parts[0], sep, Join(parts[1..], sep));
    }
  }

  lemma SegmentsOfPlain(p: string, sep: char)
    requires sep !in p
    ensures Segment(p, sep, 0) == p && Segment(p, sep, 1) == []
  {
    SplitPlain(p, sep);
  }

  lemma SegmentsOfPair(a: string, sep: char, b: string)
    requires sep !in a
    ensures Segment(a + [sep] + b, sep, 0) == a
    ensures Segment(a + [sep] + b, sep, 1) == Segment(b, sep, 0)
  {
    SplitCons(a, sep, b);
  }

  /** Two separator-free texts joined by the separator are its pieces 0 and 1. */
  lemma SegmentsAround(x: string, sep: char, y: string)
    requires sep !in x && sep !in y
    ensures Segment(x + [sep] + y, sep, 0) == x
    ensures Segment(x + [sep] + y, sep, 1) == y
  {
    SegmentsOfPair(x, sep, y);
    SegmentsOfPlain(y, sep);
  }

  /** The first two pieces and the separator between them open the token. */
  lemma {:induction false} JoinPrefix(parts: seq<string>, sep: char)
    requires |parts| >= 2
    ensures parts[0] + [sep] + parts[1] <= Join(parts, sep)
  {
    if |parts| > 2 {
      assert Join(parts[1..], sep) == parts[1] + [sep] + Join(parts[2..], sep);
    }
  }

  /** What each form guarantees about the token it was read from: both
      operands are non-empty, free of their separator, and, joined by it,
      open the token. */
  lemma ClassifySound(arg: string)
    ensures Classify(arg).Range? ==>
              var f := Classify(arg);
              f.start != [] && f.end != [] && '-' !in f.start && '-' !in f.end
              && f.start + "-" + f.end <= arg && Segment(arg, '/', 1) == []
    ensures Classify(arg).Cidr? ==>
              var f := Classify(arg);
              f.address != [] && f.bitCount != [] && '/' !in f.address && '/' !in f.bitCount
              && f.address + "/" + f.bitCount <= arg && Segment(arg, '-', 1) == []
    ensures Classify(arg).MaskForm? ==>
              var f := Classify(arg);
              f.address != [] && f.mask != [] && '%' !in f.address && '%' !in f.mask
              && f.address + "%" + f.mask <= arg
  {
    var f := Classify(arg);
    if f.Range? {
      JoinSplit(arg, '-');
      JoinPrefix(Split(arg, '-'), '-');
    } else if f.Cidr? {
      JoinSplit(arg, '/');
      JoinPrefix(Split(arg, '/'), '/');
    } else if f.MaskForm? {
      JoinSplit(arg, '%');
      JoinPrefix(Split(arg, '%'), '%');
    }
  }

  /** `A-B` is the range form. */
  lemma ClassifyRange(a: string, b: string)
    requires a != [] && b != [] && Plain(a) && Plain(b)
    ensures Classify(a + "-" + b) == Range(a, b)
  {
    SegmentsOfPair(a, '-', b);
    SegmentsOfPlain(b, '-');
    SegmentsOfPlain(a + "-" + b, '/');
    SegmentsOfPlain(a + "-" + b, '%');
  }

  /** `A/N` is the CIDR form. */
  lemma ClassifyCidr(a: string, n: string)
    requires a != [] && n != [] && Plain(a) && Plain(n)
    ensures Classify(a + "/" + n) == Cidr(a, n)
  {
    SegmentsOfPlain(a + "/" + n, '-');
    SegmentsOfPair(a, '/', n);
    SegmentsOfPlain(n, '/');
    SegmentsOfPlain(a + "/" + n, '%');
  }

  /** `A%M` is the explicit-mask form. */
  lemma ClassifyMaskForm(a: string, m: string)
    requires a != [] && m != [] && Plain(a) && Plain(m)
    ensures Classify(a + "%" + m) == MaskForm(a, m)
  {
    SegmentsOfPlain(a + "%" + m, '-');
    SegmentsOfPlain(a + "%" + m, '/');
    SegmentsOfPair(a, '%', m);
    SegmentsOfPlain(m, '%');
  }

  /** A token with no separator at all, such as `abc` or the empty token, is
      rejected. */
  lemma ClassifyNoSeparator(s: string)
    requires Plain(s)
    ensures Classify(s) == Malformed
  {
    SegmentsOfPlain(s, '-');
    SegmentsOfPlain(s, '/');
    SegmentsOfPlain(s, '%');
  }

  /** Range is tried first, so `A-B%M` is a range whose end is `B%M`. */
  lemma ClassifyRangeWithMask(a: string, b: string, m: string)
    requires a != [] && b != [] && m != [] && Plain(a) && Plain(b) && Plain(m)
    ensures Classify(a + "-" + b + "%" + m) == Range(a, b + "%" + m)
  {
    var arg := a + "-" + b + "%" + m;
    assert arg == a + "-" + (b + "%" + m);
    SegmentsOfPair(a, '-', b + "%" + m);
    SegmentsOfPlain(b + "%" + m, '-');
    SegmentsOfPlain(arg, '/');
  }

  /** `A-B/N` has a second '-' piece, so it is not CIDR, and a second '/'
      piece, so it is not a range: without '%' it is rejected. */
  lemma ClassifyRangeWithPrefix(a: string, b: string, n: string)
    requires a != [] && b != [] && n != [] && Plain(a) && Plain(b) && Plain(n)
    ensures Classify(a + "-" + b + "/" + n) == Malformed
  {
    var arg := a + "-" + b + "/" + n;
    assert arg == a + "-" + (b + "/" + n);
    SegmentsOfPair(a, '-', b + "/" + n);
    SegmentsOfPlain(b + "/" + n, '-');
    SegmentsOfPair(a + "-" + b, '/', n);
    SegmentsOfPlain(n, '/');
    SegmentsOfPlain(arg, '%');
  }

  /** ... and with a '%' added it falls through to the mask form, whose
      address operand is the whole `A-B/N`. */
  lemma ClassifyRangeWithPrefixAndMask(a: string, b: string, n: string, m: string)
    requires a != [] && b != [] && n != [] && m != []
    requires Plain(a) && Plain(b) && Plain(n) && Plain(m)
    ensures Classify(a + "-" + b + "/" + n + "%" + m) == MaskForm(a + "-" + b + "/" + n, m)
  {
    var arg := a + "-" + b + "/" + n + "%" + m;
    var tail, left, right, net := b + "/" + n + "%" + m, a + "-" + b, n + "%" + m, a + "-" + b + "/" + n;
    assert arg == a + "-" + tail && arg == left + "/" + right && arg == net + "%" + m;
    SegmentsAround(a, '-', tail);
    SegmentsAround(left, '/', right);
    SegmentsAround(net, '%', m);
  }

  /** Pieces after the second are never looked at: `A-B-C` is the range
      `(A, B)` and `A/N/X` is the CIDR form `(A, N)`. */
  lemma ClassifyIgnoresExtraPieces(a: string, b: string, c: string)
    requires a != [] && b != [] && c != [] && Plain(a) && Plain(b) && Plain(c)
    ensures Classify(a + "-" + b + "-" + c) == Range(a, b)
    ensures Classify(a + "/" + b + "/" + c) == Cidr(a, b)
  {
    var range := a + "-" + b + "-" + c;
    assert range == a + "-" + (b + "-" + c);
    SegmentsOfPair(a, '-', b + "-" + c);
    SegmentsOfPair(b, '-', c);
    SegmentsOfPlain(range, '/');
    var cidr := a + "/" + b + "/" + c;
    assert cidr == a + "/" + (b + "/" + c);
    SegmentsOfPlain(cidr, '-');
    SegmentsOfPair(a, '/', b + "/" + c);
    SegmentsOfPair(b, '/', c);
  }

  /** A mask form needs a non-empty piece after the first `%`: `A-B/N%` is
      rejected. */
  lemma ClassifyEmptyMaskPiece(a: string, b: string, n: string)
    requires a != [] && b != [] && n != []
    requires Plain(a) && Plain(b) && Plain(n)
    ensures Classify(a + "-" + b + "/" + n + "%") == Malformed
  {
    var arg := a + "-" + b + "/" + n + "%";
    var tail, left, right, net := b + "/" + n + "%", a + "-" + b, n + "%", a + "-" + b + "/" + n;
    assert arg == a + "-" + tail && arg == left + "/" + right && arg == net + "%" + [];
    SegmentsAround(a, '-', tail);
    SegmentsAround(left, '/', right);
    SegmentsAround(net, '%', []);
  }

  /** Only the first `%` splits off the mask: `A-B%M/N` is the mask form
      `(A-B, M/N)`. */
  lemma ClassifyMaskBeforePrefix(a: string, b: string, m: string, n: string)
    requires a != [] && b != [] && m != [] && n != []
    requires Plain(a) && Plain(b) && Plain(m) && Plain(n)
    ensures Classify(a + "-" + b + "%" + m + "/" + n) == MaskForm(a + "-" + b, m + "/" + n)
  {
    var arg := a + "-" + b + "%" + m + "/" + n;
    var tail, left, net, mask := b + "%" + m + "/" + n, a + "-" + b + "%" + m, a + "-" + b, m + "/" + n;
    assert arg == a + "-" + tail && arg == left + "/" + n && arg == net + "%" + mask;
    SegmentsAround(a, '-', tail);
    SegmentsAround(left, '/', n);
    SegmentsAround(net, '%', mask);
  }
}
