/** `natural_sort_key` (streamlit_app.py) and the order `sorted(..., key=natural_sort_key)`
    puts file names in: a name is cut into alternating digit-free and digit runs, the digit
    runs are compared as numbers and the rest as text, so "page_2.png" comes before
    "page_10.png". */
module NaturalSort {
  import opened Decimal

  /** One element of a key list: a text run (Python `str`) or a digit run read by `int`. */
  datatype KeyPart = Text(text: string) | Num(value: nat)

  /** Outcome of a Python comparison of two values. */
  datatype Ordering = Less | Equal | Greater

  // ---------------------------------------------------------------------------
  // re.split(r'(\d+)', s)
  // ---------------------------------------------------------------------------

  /** The longest digit-free prefix of `s`. */
  function TextRun(s: string): (t: string)
    ensures t <= s && DigitFree(t)
    ensures |t| < |s| ==> IsDigit(s[|t|])
    ensures s != [] && !IsDigit(s[0]) ==> t != []
  {
    if s == [] || IsDigit(s[0]) then [] else [s[0]] + TextRun(s[1..])
  }

  /** The longest all-digit prefix of `s`. */
  function DigitRun(s: string): (d: string)
    ensures d <= s && AllDigits(d)
    ensures |d| < |s| ==> !IsDigit(s[|d|])
    ensures s != [] && IsDigit(s[0]) ==> d != []
  {
    if s == [] || !IsDigit(s[0]) then [] else [s[0]] + DigitRun(s[1..])
  }

  /** The list `re.split(r'(\d+)', s)` returns: text, digits, text, ..., text, where
      the text pieces may be empty only at either end. */
  function SplitDigitRuns(s: string): seq<string>
    decreases |s|
  {
    var t := TextRun(s);
    var rest := s[|t|..];
    if rest == [] then [t]
    else
      var d := DigitRun(rest);
      var more := SplitDigitRuns(rest[|d|..]);
      [t, d] + more
  }

  /** Joins the pieces back into one string, digit runs in their original text. */
  function Concat(pieces: seq<string>): string {
    if pieces == [] then "" else pieces[0] + Concat(pieces[1..])
  }

  /** The shape of a split by a capturing digit pattern: digit-free text, then (digit run,
      digit-free text) pairs; the digit runs are non-empty and maximal, so a text piece
      between two of them is non-empty (only the first and last text may be empty). */
  predicate WellSplit(p: seq<string>)
    decreases |p|
  {
    && |p| >= 1
    && DigitFree(p[0])
    && (|p| == 1 ||
        (|p| >= 3 && p[1] != [] && AllDigits(p[1]) &&
         (|p| > 3 ==> p[2] != []) && WellSplit(p[2..])))
  }

  /** The same shape, position by position: odd length, digit-free text at even
      positions, non-empty digit runs at odd positions. */
  lemma {:induction false} WellSplitPositions(p: seq<string>)
    requires WellSplit(p)
    ensures |p| % 2 == 1
    ensures forall i :: 0 <= i < |p| && i % 2 == 0 ==> DigitFree(p[i])
    ensures forall i :: 0 <= i < |p| && i % 2 == 1 ==> p[i] != [] && AllDigits(p[i])
    decreases |p|
  {
    if |p| > 1 {
      var tail := p[2..];
      WellSplitPositions(tail);
      forall i | 2 <= i < |p| ensures p[i] == tail[i - 2] { }
    }
  }

  lemma {:induction false} ConcatAppend(a: seq<string>, b: seq<string>)
    ensures Concat(a + b) == Concat(a) + Concat(b)
  {
    if a != [] {
      assert (a + b)[1..] == a[1..] + b;
      ConcatAppend(a[1..], b);
    } else {
      assert a + b == b;
    }
  }

  lemma ConcatThree(a: string, b: string, c: string)
    ensures Concat([a, b, c]) == a + b + c
  {
    assert [a, b, c][1..] == [b, c];
    assert [b, c][1..] == [c];
    assert [c][1..] == [];
    assert Concat([c]) == c + Concat([]) == c;
    assert Concat([b, c]) == b + c;
  }

  /** A digit-free prefix followed by a digit or by nothing is the text run. */
  lemma TextRunUnique(s: string, u: string)
    requires u <= s && DigitFree(u)
    requires |u| < |s| ==> IsDigit(s[|u|])
    ensures TextRun(s) == u
  {
  }

  /** An all-digit prefix followed by a non-digit or by nothing is the digit run. */
  lemma DigitRunUnique(s: string, u: string)
    requires u <= s && AllDigits(u)
    requires |u| < |s| ==> !IsDigit(s[|u|])
    ensures DigitRun(s) == u
  {
  }

  /** The split has the capturing-split shape. */
  lemma {:induction false} SplitDigitRunsWellSplit(s: string)
    ensures WellSplit(SplitDigitRuns(s))
    decreases |s|
  {
    var t := TextRun(s);
    var rest := s[|t|..];
    if rest != [] {
      var d := DigitRun(rest);
      var tail := rest[|d|..];
      SplitDigitRunsWellSplit(tail);
      var q := SplitDigitRuns(tail);
      var p := [t, d] + q;
      assert SplitDigitRuns(s) == p;
      assert p[2..] == q;
      assert p[0] == t && p[1] == d;
      assert |q| > 1 ==> tail != [];
      assert |q| > 1 ==> q[0] == TextRun(tail) && q[0] != [];
    }
  }

  /** One step of the split: the text run, then (unless that is all) the digit run and
      the split of what follows. */
  lemma SplitDigitRunsStep(s: string)
    ensures TextRun(s) == s ==> SplitDigitRuns(s) == [s]
    ensures TextRun(s) != s ==>
      var rest := s[|TextRun(s)|..];
      var tail := rest[|DigitRun(rest)|..];
      && s == TextRun(s) + DigitRun(rest) + tail
      && SplitDigitRuns(s) == [TextRun(s), DigitRun(rest)] + SplitDigitRuns(tail)
  {
    var t := TextRun(s);
    var rest := s[|t|..];
    assert s == t + rest;
    if rest != [] {
      var d := DigitRun(rest);
      assert rest == d + rest[|d|..];
    }
  }

  /** Rejoining the pieces, digit runs in their original text, gives back the name. */
  lemma {:induction false} SplitDigitRunsRejoin(s: string)
    ensures Concat(SplitDigitRuns(s)) == s
    decreases |s|
  {
    SplitDigitRunsStep(s);
    var t := TextRun(s);
    if t == s {
      assert Concat([t]) == t + Concat([]);
    } else {
      var rest := s[|t|..];
      var d := DigitRun(rest);
      var tail := rest[|d|..];
      SplitDigitRunsRejoin(tail);
      ConcatPair(t, d, SplitDigitRuns(tail));
    }
  }

  lemma ConcatPair(t: string, d: string, q: seq<string>)
    ensures Concat([t, d] + q) == t + d + Concat(q)
  {
    assert ([t, d] + q)[1..] == [d] + q;
    assert ([d] + q)[1..] == q;
  }

  /** Reference characterisation: the split is the ONLY list of the capturing-split shape
      that joins back to the name. */
  lemma {:induction false} SplitDigitRunsUnique(s: string, p: seq<string>)
    requires WellSplit(p) && Concat(p) == s
    ensures p == SplitDigitRuns(s)
    decreases |p|
  {
    if |p| == 1 {
      assert Concat(p) == p[0] + Concat([]);
      TextRunUnique(s, p[0]);
    } else {
      var tail := p[2..];
      var q := Concat(tail);
      assert p == [p[0]] + ([p[1]] + tail);
      ConcatAppend([p[0]], [p[1]] + tail);
      ConcatAppend([p[1]], tail);
      assert Concat([p[0]]) == p[0];
      assert Concat([p[1]]) == p[1];
      assert s == p[0] + (p[1] + q);
      assert s[|p[0]|] == p[1][0];
      TextRunUnique(s, p[0]);
      var rest := s[|p[0]|..];
      assert rest == p[1] + q;
      if q != [] {
        assert q == p[2] + Concat(p[3..]);
        assert rest[|p[1]|] == p[2][0];
      }
      DigitRunUnique(rest, p[1]);
      assert rest[|p[1]|..] == q;
      SplitDigitRunsUnique(q, tail);
    }
  }

  // ---------------------------------------------------------------------------
  // natural_sort_key
  // ---------------------------------------------------------------------------

  /** `int(text) if text.isdigit() else text` (`"".isdigit()` is false). */
  function KeyOfPiece(piece: string): (k: KeyPart)
    ensures k.Num? <==> piece != [] && AllDigits(piece)
    ensures k.Text? ==> k.text == piece
  {
    if piece != [] && AllDigits(piece) then Num(DigitsValue(piece)) else Text(piece)
  }

  function KeyOfPieces(pieces: seq<string>): seq<KeyPart> {
    seq(|pieces|, i requires 0 <= i < |pieces| => KeyOfPiece(pieces[i]))
  }

  /** `natural_sort_key(s)` */
  function NaturalSortKey(s: string): (k: seq<KeyPart>)
    ensures |k| >= 1 && k[0] == Text(TextRun(s))
  {
    var pieces := SplitDigitRuns(s);
    assert pieces[0] != [] ==> !IsDigit(pieces[0][0]);
    KeyOfPieces(pieces)
  }

  /** Kinds alternate along the key, text first when `textFirst`. */
  predicate Alternating(k: seq<KeyPart>, textFirst: bool) {
    forall i :: 0 <= i < |k| ==> k[i].Text? == ((i % 2 == 0) == textFirst)
  }

  /** The key has odd length; even positions hold the digit-free text runs, odd positions
      the integer values of the maximal digit runs, and the runs rejoin to the name. */
  lemma NaturalSortKeyShape(s: string)
    ensures |NaturalSortKey(s)| % 2 == 1
    ensures |NaturalSortKey(s)| == |SplitDigitRuns(s)|
    ensures forall i :: 0 <= i < |NaturalSortKey(s)| && i % 2 == 0 ==>
      DigitFree(SplitDigitRuns(s)[i]) && NaturalSortKey(s)[i] == Text(SplitDigitRuns(s)[i])
    ensures forall i :: 0 <= i < |NaturalSortKey(s)| && i % 2 == 1 ==>
      SplitDigitRuns(s)[i] != [] && AllDigits(SplitDigitRuns(s)[i]) &&
      NaturalSortKey(s)[i] == Num(DigitsValue(SplitDigitRuns(s)[i]))
    ensures Concat(SplitDigitRuns(s)) == s
    ensures Alternating(NaturalSortKey(s), true)
  {
    var p := SplitDigitRuns(s);
    var k := NaturalSortKey(s);
    assert k == KeyOfPieces(p);
    SplitDigitRunsWellSplit(s);
    SplitDigitRunsRejoin(s);
    WellSplitPositions(p);
    forall i | 0 <= i < |p| && i % 2 == 0
      ensures k[i] == Text(p[i])
    {
      if p[i] != [] { assert !IsDigit(p[i][0]); }
    }
    forall i | 0 <= i < |p| && i % 2 == 1
      ensures k[i] == Num(DigitsValue(p[i]))
    {
      assert k[i] == KeyOfPiece(p[i]);
    }
  }

  /** A name made of a digit-free prefix, a number written by `str` and a digit-free suffix
      has the key [prefix, number, suffix]. */
  lemma NumberedNameKey(prefix: string, n: nat, suffix: string)
    requires DigitFree(prefix) && DigitFree(suffix)
    ensures NaturalSortKey(prefix + NatToString(n) + suffix) == [Text(prefix), Num(n), Text(suffix)]
  {
    var digits := NatToString(n);
    ThreePieceSplit(prefix, digits, suffix);
    NatToStringValue(n);
    assert KeyOfPiece(digits) == Num(n);
    if prefix != [] { assert !IsDigit(prefix[0]); }
    if suffix != [] { assert !IsDigit(suffix[0]); }
    assert KeyOfPiece(prefix) == Text(prefix);
    assert KeyOfPiece(suffix) == Text(suffix);
  }

  /** Text, one digit run, text: the split has exactly those three pieces. */
  lemma ThreePieceSplit(prefix: string, digits: string, suffix: string)
    requires DigitFree(prefix) && DigitFree(suffix)
    requires digits != [] && AllDigits(digits)
    ensures SplitDigitRuns(prefix + digits + suffix) == [prefix, digits, suffix]
  {
    var p := [prefix, digits, suffix];
    assert p[2..] == [suffix];
    assert WellSplit([suffix]);
    assert WellSplit(p);
    ConcatThree(prefix, digits, suffix);
    SplitDigitRunsUnique(prefix + digits + suffix, p);
  }

  // ---------------------------------------------------------------------------
  // Python comparison of key lists
  // ---------------------------------------------------------------------------

  function Flip(o: Ordering): Ordering {
    match o
    case Less => Greater
    case Equal => Equal
    case Greater => Less
  }

  /** `str` comparison: lexicographic by code point, a proper prefix first. */
  function CompareStrings(x: string, y: string): Ordering {
    if x == [] then (if y == [] then Equal else Less)
    else if y == [] then Greater
    else if x[0] < y[0] then Less
    else if y[0] < x[0] then Greater
    else CompareStrings(x[1..], y[1..])
  }

  /** `<` between two key elements; comparing `str` with `int` raises TypeError (None). */
  function CompareParts(x: KeyPart, y: KeyPart): Option<Ordering> {
    match (x, y)
    case (Text(a), Text(b)) => Some(CompareStrings(a, b))
    case (Num(m), Num(n)) => Some(if m < n then Less else if m == n then Equal else Greater)
    case _ => None
  }

  /** `list` comparison: skip the common equal prefix, then compare the first differing
      elements; if one list runs out first, it is the smaller. */
  function CompareKeys(a: seq<KeyPart>, b: seq<KeyPart>): Option<Ordering>
  {
    if a == [] || b == [] then Some(if |a| < |b| then Less else if |a| == |b| then Equal else Greater)
    else if a[0] == b[0] then CompareKeys(a[1..], b[1..])
    else CompareParts(a[0], b[0])
  }

  lemma {:induction false} CompareStringsFlip(x: string, y: string)
    ensures CompareStrings(y, x) == Flip(CompareStrings(x, y))
    ensures CompareStrings(x, y) == Equal <==> x == y
  {
    if x != [] && y != [] && x[0] == y[0] {
      CompareStringsFlip(x[1..], y[1..]);
      assert x == [x[0]] + x[1..] && y == [y[0]] + y[1..];
    }
  }

  lemma {:induction false} CompareStringsTransitive(x: string, y: string, z: string)
    requires CompareStrings(x, y) == Less && CompareStrings(y, z) == Less
    ensures CompareStrings(x, z) == Less
  {
    if x != [] && x[0] == y[0] && y[0] == z[0] {
      CompareStringsTransitive(x[1..], y[1..], z[1..]);
    }
  }

  lemma ComparePartsFlip(x: KeyPart, y: KeyPart)
    ensures CompareParts(x, y).Some? <==> CompareParts(y, x).Some?
    ensures CompareParts(x, y).Some? ==> CompareParts(y, x).value == Flip(CompareParts(x, y).value)
    ensures CompareParts(x, y) == Some(Equal) <==> x == y
  {
    if x.Text? && y.Text? {
      CompareStringsFlip(x.text, y.text);
    }
  }

  /** Swapping the operands swaps Less and Greater, and a TypeError stays a TypeError. */
  lemma {:induction false} CompareKeysFlip(a: seq<KeyPart>, b: seq<KeyPart>)
    ensures CompareKeys(a, b).Some? <==> CompareKeys(b, a).Some?
    ensures CompareKeys(a, b).Some? ==> CompareKeys(b, a).value == Flip(CompareKeys(a, b).value)
    ensures CompareKeys(a, b) == Some(Equal) <==> a == b
  {
    if a != [] && b != [] {
      if a[0] == b[0] {
        CompareKeysFlip(a[1..], b[1..]);
        assert a == [a[0]] + a[1..] && b == [b[0]] + b[1..];
      } else {
        ComparePartsFlip(a[0], b[0]);
      }
    }
  }

  /** Keys whose kinds alternate in step never compare `str` with `int`. */
  lemma {:induction false} CompareKeysDefined(a: seq<KeyPart>, b: seq<KeyPart>, textFirst: bool)
    requires Alternating(a, textFirst) && Alternating(b, textFirst)
    ensures CompareKeys(a, b).Some?
  {
    if a != [] && b != [] && a[0] == b[0] {
      assert Alternating(a[1..], !textFirst) by {
        forall i | 0 <= i < |a[1..]| ensures a[1..][i].Text? == ((i % 2 == 0) == !textFirst) {
          assert a[1..][i] == a[i + 1];
        }
      }
      assert Alternating(b[1..], !textFirst) by {
        forall i | 0 <= i < |b[1..]| ensures b[1..][i].Text? == ((i % 2 == 0) == !textFirst) {
          assert b[1..][i] == b[i + 1];
        }
      }
      CompareKeysDefined(a[1..], b[1..], !textFirst);
    }
  }

  lemma {:induction false} CompareKeysTransitive(a: seq<KeyPart>, b: seq<KeyPart>, c: seq<KeyPart>)
    requires CompareKeys(a, b) == Some(Less) && CompareKeys(b, c) == Some(Less)
    ensures CompareKeys(a, c) == Some(Less)
  {
    if a != [] {
      if a[0] == b[0] && b[0] == c[0] {
        CompareKeysTransitive(a[1..], b[1..], c[1..]);
      } else if a[0] == b[0] {
        ComparePartsFlip(b[0], c[0]);
      } else if b[0] == c[0] {
        ComparePartsFlip(a[0], b[0]);
      } else {
        ComparePartsFlip(a[0], b[0]);
        ComparePartsFlip(b[0], c[0]);
        ComparePartsFlip(a[0], c[0]);
        if a[0].Text? {
          CompareStringsTransitive(a[0].text, b[0].text, c[0].text);
        }
      }
    }
  }

  // ---------------------------------------------------------------------------
  // The order on names used by sorted(..., key=natural_sort_key)
  // ---------------------------------------------------------------------------

  /** `natural_sort_key(x) < natural_sort_key(y)`, the only comparison `sorted` makes. */
  predicate NaturalLess(x: string, y: string) {
    CompareKeys(NaturalSortKey(x), NaturalSortKey(y)) == Some(Less)
  }

  /** x may come before y in the sorted list. */
  predicate NaturalLe(x: string, y: string) {
    !NaturalLess(y, x)
  }

  /** Two names' keys always compare: position by position, text with text and integer
      with integer, so sorting never raises TypeError. */
  lemma KeysComparable(x: string, y: string)
    ensures CompareKeys(NaturalSortKey(x), NaturalSortKey(y)).Some?
    ensures CompareKeys(NaturalSortKey(x), NaturalSortKey(y)) == Some(Equal) <==>
      NaturalSortKey(x) == NaturalSortKey(y)
  {
    NaturalSortKeyShape(x);
    NaturalSortKeyShape(y);
    CompareKeysDefined(NaturalSortKey(x), NaturalSortKey(y), true);
    CompareKeysFlip(NaturalSortKey(x), NaturalSortKey(y));
  }

  lemma NaturalLessAsymmetric(x: string, y: string)
    requires NaturalLess(x, y)
    ensures !NaturalLess(y, x)
  {
    CompareKeysFlip(NaturalSortKey(x), NaturalSortKey(y));
  }

  /** The order on names is a total preorder: reflexive, total and transitive. */
  lemma NaturalLeTotalPreorder(x: string, y: string, z: string)
    ensures NaturalLe(x, x)
    ensures NaturalLe(x, y) || NaturalLe(y, x)
    ensures NaturalLe(x, y) && NaturalLe(y, z) ==> NaturalLe(x, z)
  {
    CompareKeysFlip(NaturalSortKey(x), NaturalSortKey(x));
    if NaturalLess(x, y) { NaturalLessAsymmetric(x, y); }
    if NaturalLe(x, y) && NaturalLe(y, z) && NaturalLess(z, x) {
      var kx, ky, kz := NaturalSortKey(x), NaturalSortKey(y), NaturalSortKey(z);
      KeysComparable(x, y);
      KeysComparable(y, z);
      CompareKeysFlip(kx, ky);
      CompareKeysFlip(ky, kz);
      if kx != ky {
        assert CompareKeys(kx, ky) == Some(Less);
        CompareKeysTransitive(kz, kx, ky);
      }
      assert false;
    }
  }

  /** Names differing only in leading zeros of a number get equal keys, so they tie. */
  lemma LeadingZerosTie(p: string, z: string, d: string, q: string)
    requires p == [] || !IsDigit(p[|p| - 1])
    requires AllZeros(z) && d != [] && AllDigits(d)
    requires q == [] || !IsDigit(q[0])
    ensures NaturalSortKey(p + z + d + q) == NaturalSortKey(p + d + q)
    ensures NaturalLe(p + z + d + q, p + d + q) && NaturalLe(p + d + q, p + z + d + q)
  {
    LeadingZerosValue(z, d);
    var named := p + z + d + q;
    var plain := p + d + q;
    assert named == p + (z + d) + q;
    SplitAround(p, z + d, q);
    SplitAround(p, d, q);
    KeyOfPiecesAround(SplitDigitRuns(p), z + d, d, SplitDigitRuns(q));
    CompareKeysFlip(NaturalSortKey(named), NaturalSortKey(plain));
  }

  /** Replacing one piece by another with the same key element keeps the whole key. */
  lemma KeyOfPiecesAround(pp: seq<string>, a: string, b: string, qq: seq<string>)
    requires KeyOfPiece(a) == KeyOfPiece(b)
    ensures KeyOfPieces(pp + [a] + qq) == KeyOfPieces(pp + [b] + qq)
  {
    var k1, k2 := KeyOfPieces(pp + [a] + qq), KeyOfPieces(pp + [b] + qq);
    forall i | 0 <= i < |k1| ensures k1[i] == k2[i] {
      if i < |pp| {
        assert (pp + [a] + qq)[i] == pp[i] == (pp + [b] + qq)[i];
      } else if i > |pp| {
        assert (pp + [a] + qq)[i] == qq[i - |pp| - 1] == (pp + [b] + qq)[i];
      }
    }
  }

  /** A digit run between a name part ending in a non-digit and one starting with a
      non-digit splits as the parts' own splits around it. */
  lemma SplitAround(p: string, d: string, q: string)
    requires p == [] || !IsDigit(p[|p| - 1])
    requires d != [] && AllDigits(d)
    requires q == [] || !IsDigit(q[0])
    ensures SplitDigitRuns(p + d + q) == SplitDigitRuns(p) + [d] + SplitDigitRuns(q)
  {
    var pp, qq := SplitDigitRuns(p), SplitDigitRuns(q);
    SplitDigitRunsWellSplit(p);
    SplitDigitRunsRejoin(p);
    SplitDigitRunsWellSplit(q);
    SplitDigitRunsRejoin(q);
    var all := pp + [d] + qq;
    ConcatAppend(pp + [d], qq);
    ConcatAppend(pp, [d]);
    assert Concat([d]) == d;
    if p != [] { LastPieceNonEmpty(p); }
    if |qq| > 1 { assert qq[0] == TextRun(q); }
    WellSplitJoin(pp, d, qq);
    SplitDigitRunsUnique(p + d + q, all);
  }

  /** Two well-shaped splits joined by a digit run are well shaped when the pieces that
      become interior text are non-empty. */
  lemma {:induction false} WellSplitJoin(pp: seq<string>, d: string, qq: seq<string>)
    requires WellSplit(pp) && WellSplit(qq)
    requires d != [] && AllDigits(d)
    requires |pp| > 1 ==> pp[|pp| - 1] != []
    requires |qq| > 1 ==> qq[0] != []
    ensures WellSplit(pp + [d] + qq)
    decreases |pp|
  {
    var all := pp + [d] + qq;
    if |pp| == 1 {
      assert all == [pp[0], d] + qq;
      assert all[2..] == qq;
    } else {
      var rest := pp[2..];
      WellSplitJoin(rest, d, qq);
      assert all == [pp[0], pp[1]] + (rest + [d] + qq);
      assert all[2..] == rest + [d] + qq;
      assert all[2] == rest[0];
    }
  }

  /** A name ending in a non-digit has a non-empty last text run. */
  lemma {:induction false} LastPieceNonEmpty(p: string)
    requires p != [] && !IsDigit(p[|p| - 1])
    ensures SplitDigitRuns(p)[|SplitDigitRuns(p)| - 1] != []
    decreases |p|
  {
    var t := TextRun(p);
    var rest := p[|t|..];
    if rest != [] {
      var d := DigitRun(rest);
      var tail := rest[|d|..];
      var q := SplitDigitRuns(tail);
      assert SplitDigitRuns(p) == [t, d] + q;
      if tail != [] {
        assert tail[|tail| - 1] == p[|p| - 1];
        LastPieceNonEmpty(tail);
      }
    }
  }

  /** Names that differ only in the number they carry sort by that number. */
  /** Names numbered 1, 2, ... between a fixed digit-free prefix and suffix ascend. */
  lemma NumberedNamesAscending(names: seq<string>, prefix: string, suffix: string)
    requires DigitFree(prefix) && DigitFree(suffix)
    requires forall i :: 0 <= i < |names| ==> names[i] == prefix + NatToString(i + 1) + suffix
    ensures forall i, j :: 0 <= i < j < |names| ==> NaturalLess(names[i], names[j])
  {
    forall i, j | 0 <= i < j < |names| ensures NaturalLess(names[i], names[j]) {
      NumberedNamesLess(names[i], names[j], prefix, i + 1, j + 1, suffix);
    }
  }

  lemma NumberedNamesLess(x: string, y: string, prefix: string, m: nat, n: nat, suffix: string)
    requires DigitFree(prefix) && DigitFree(suffix)
    requires x == prefix + NatToString(m) + suffix && y == prefix + NatToString(n) + suffix
    requires m < n
    ensures NaturalLess(x, y)
  {
    NumberedNamesOrder(prefix, m, n, suffix);
  }

  lemma NumberedNamesOrder(prefix: string, m: nat, n: nat, suffix: string)
    requires DigitFree(prefix) && DigitFree(suffix)
    ensures NaturalLess(prefix + NatToString(m) + suffix, prefix + NatToString(n) + suffix) <==> m < n
  {
    NumberedNameKey(prefix, m, suffix);
    NumberedNameKey(prefix, n, suffix);
    NumberedKeysOrder(prefix, m, n, suffix);
  }

  lemma NumberedKeysOrder(prefix: string, m: nat, n: nat, suffix: string)
    ensures CompareKeys([Text(prefix), Num(m), Text(suffix)], [Text(prefix), Num(n), Text(suffix)]) == Some(Less) <==> m < n
  {
    var km := [Text(prefix), Num(m), Text(suffix)];
    var kn := [Text(prefix), Num(n), Text(suffix)];
    assert km[1..] == [Num(m), Text(suffix)] && kn[1..] == [Num(n), Text(suffix)];
    assert CompareKeys(km, kn) == CompareKeys(km[1..], kn[1..]);
    if m == n {
      CompareKeysFlip(km, kn);
    }
  }

  /** "page_2.png" sorts before "page_10.png". */
  lemma PageTwoBeforePageTen()
    ensures NaturalLess("page_2.png", "page_10.png")
    ensures !NaturalLess("page_10.png", "page_2.png")
  {
    var prefix, suffix := "page_", ".png";
    assert DigitFree(prefix) && DigitFree(suffix);
    assert prefix + NatToString(2) + suffix == "page_2.png" by {
      assert NatToString(2) == "2";
    }
    assert prefix + NatToString(10) + suffix == "page_10.png" by {
      assert NatToString(10) == "10";
    }
    NumberedNamesOrder(prefix, 2, 10, suffix);
    NumberedNamesOrder(prefix, 10, 2, suffix);
  }

  /** Plain string order puts "page_10.png" before "page_2.png". */
  lemma PlainOrderPutsPageTenFirst()
    ensures CompareStrings("page_10.png", "page_2.png") == Less
  {
  }

  /** "page_07.png" and "page_7.png" get the same key and tie. */
  lemma PageZeroSevenTiesPageSeven()
    ensures NaturalSortKey("page_07.png") == NaturalSortKey("page_7.png")
    ensures NaturalLe("page_07.png", "page_7.png") && NaturalLe("page_7.png", "page_07.png")
  {
    var prefix, zero, seven, suffix := "page_", "0", "7", ".png";
    assert !IsDigit(prefix[|prefix| - 1]) && !IsDigit(suffix[0]);
    assert AllZeros(zero) && AllDigits(seven);
    assert prefix + zero + seven + suffix == "page_07.png";
    assert prefix + seven + suffix == "page_7.png";
    LeadingZerosTie(prefix, zero, seven, suffix);
  }

  // ---------------------------------------------------------------------------
  // sorted(names, key=natural_sort_key): a stable sort
  // ---------------------------------------------------------------------------

  /** Each name may come before the next. */
  predicate SortedNatural(s: seq<string>) {
    forall i :: 0 <= i < |s| - 1 ==> NaturalLe(s[i], s[i + 1])
  }

  /** Inserts x in front of the first name that is not smaller, keeping equal-key
      names that follow x in the input after it (stability). */
  function InsertNatural(x: string, ys: seq<string>): (r: seq<string>)
    requires SortedNatural(ys)
    ensures multiset(r) == multiset(ys) + multiset{x}
    ensures |r| == |ys| + 1
    ensures SortedNatural(r)
    ensures |r| > 0 && (r[0] == x || (ys != [] && r[0] == ys[0]))
  {
    if ys == [] || !NaturalLess(ys[0], x) then
      SortedCons(x, ys);
      [x] + ys
    else
      NaturalLessAsymmetric(ys[0], x);
      assert ys == [ys[0]] + ys[1..];
      var r := InsertNatural(x, ys[1..]);
      SortedCons(ys[0], r);
      [ys[0]] + r
  }

  /** A name no greater than the head of a sorted list can go in front of it. */
  lemma SortedCons(h: string, r: seq<string>)
    requires SortedNatural(r)
    requires r != [] ==> NaturalLe(h, r[0])
    ensures SortedNatural([h] + r)
  {
    var s := [h] + r;
    forall i | 0 <= i < |s| - 1 ensures NaturalLe(s[i], s[i + 1]) {
      if i > 0 {
        assert s[i] == r[i - 1] && s[i + 1] == r[i];
      }
    }
  }

  /** The names in `s` whose key is `key`, in their order in `s`. */
  function WithKey(s: seq<string>, key: seq<KeyPart>): seq<string> {
    if s == [] then [] else Keep(s[0], key) + WithKey(s[1..], key)
  }

  /** [name] when its key is `key`, otherwise nothing. */
  function Keep(name: string, key: seq<KeyPart>): seq<string> {
    if NaturalSortKey(name) == key then [name] else []
  }

  /** Inserting x keeps, for every key, the names with that key in their order in
      [x] + ys: x only passes names whose key is strictly smaller than its own. */
  lemma {:induction false} InsertNaturalStable(x: string, ys: seq<string>, key: seq<KeyPart>)
    requires SortedNatural(ys)
    ensures WithKey(InsertNatural(x, ys), key) == WithKey([x] + ys, key)
    decreases |ys|
  {
    InsertNaturalStep(x, ys);
    if ys != [] && NaturalLess(ys[0], x) {
      InsertNaturalStable(x, ys[1..], key);
      LessKeysDiffer(ys[0], x);
      PassOtherKey(x, ys[0], InsertNatural(x, ys[1..]), ys[1..], key);
      assert ys == [ys[0]] + ys[1..];
    }
  }

  /** Moving x past a name y with a different key does not change the order of the
      names with any one key. */
  lemma PassOtherKey(x: string, y: string, r: seq<string>, tail: seq<string>, key: seq<KeyPart>)
    requires NaturalSortKey(y) != NaturalSortKey(x)
    requires WithKey(r, key) == WithKey([x] + tail, key)
    ensures WithKey([y] + r, key) == WithKey([x] + ([y] + tail), key)
  {
    WithKeyCons(y, r, key);
    WithKeyCons(x, tail, key);
    WithKeyCons(x, [y] + tail, key);
    WithKeyCons(y, tail, key);
    assert Keep(x, key) == [] || Keep(y, key) == [];
    SwapEmpty(Keep(x, key), Keep(y, key), WithKey(tail, key));
  }

  lemma SwapEmpty(a: seq<string>, b: seq<string>, rest: seq<string>)
    requires a == [] || b == []
    ensures b + (a + rest) == a + (b + rest)
  {
    if a == [] {
      assert a + rest == rest;
      assert a + (b + rest) == b + rest;
    } else {
      assert b + (a + rest) == a + rest;
      assert b + rest == rest;
    }
  }

  /** One step of the insertion. */
  lemma InsertNaturalStep(x: string, ys: seq<string>)
    requires SortedNatural(ys)
    ensures ys == [] || !NaturalLess(ys[0], x) ==> InsertNatural(x, ys) == [x] + ys
    ensures ys != [] && NaturalLess(ys[0], x) ==>
      SortedNatural(ys[1..]) && InsertNatural(x, ys) == [ys[0]] + InsertNatural(x, ys[1..])
  {
  }

  lemma LessKeysDiffer(x: string, y: string)
    requires NaturalLess(x, y)
    ensures NaturalSortKey(x) != NaturalSortKey(y)
  {
    CompareKeysFlip(NaturalSortKey(x), NaturalSortKey(y));
  }

  lemma WithKeyCons(h: string, t: seq<string>, key: seq<KeyPart>)
    ensures WithKey([h] + t, key) == Keep(h, key) + WithKey(t, key)
  {
    assert ([h] + t)[1..] == t;
  }

  /** `sorted(names, key=natural_sort_key)`: a sorted permutation of the names, and
      stable: names with the same key keep their input order. */
  function NaturalSorted(names: seq<string>): (r: seq<string>)
    ensures multiset(r) == multiset(names)
    ensures |r| == |names|
    ensures SortedNatural(r)
    ensures forall key :: WithKey(r, key) == WithKey(names, key)
  {
    if names == [] then []
    else
      assert names == [names[0]] + names[1..];
      var rest := NaturalSorted(names[1..]);
      assert forall key :: WithKey(InsertNatural(names[0], rest), key) == WithKey(names, key) by {
        forall key ensures WithKey(InsertNatural(names[0], rest), key) == WithKey(names, key) {
          InsertNaturalStable(names[0], rest, key);
          assert ([names[0]] + rest)[1..] == rest;
        }
      }
      InsertNatural(names[0], rest)
  }

  /** Sorted neighbour by neighbour means sorted pair by pair. */
  lemma {:induction false} SortedNaturalPairwise(s: seq<string>, i: int, j: int)
    requires SortedNatural(s) && 0 <= i <= j < |s|
    ensures NaturalLe(s[i], s[j])
    decreases j - i
  {
    if i == j {
      NaturalLeTotalPreorder(s[i], s[i], s[i]);
    } else {
      SortedNaturalPairwise(s, i + 1, j);
      NaturalLeTotalPreorder(s[i], s[i + 1], s[j]);
    }
  }

  /** A sorted permutation of a strictly ascending list is that list: sorting has only
      one possible outcome when no two names tie. */
  lemma {:induction false} SortedPermutationUnique(a: seq<string>, b: seq<string>)
    requires SortedNatural(a)
    requires forall i, j :: 0 <= i < j < |b| ==> NaturalLess(b[i], b[j])
    requires multiset(a) == multiset(b)
    ensures a == b
  {
    if a != [] {
      SameHead(a, b);
      TailPermutation(a, b);
      var a', b' := a[1..], b[1..];
      forall i | 0 <= i < |a'| - 1 ensures NaturalLe(a'[i], a'[i + 1]) {
        assert a'[i] == a[i + 1] && a'[i + 1] == a[i + 2];
      }
      forall i, j | 0 <= i < j < |b'| ensures NaturalLess(b'[i], b'[j]) {
        assert b'[i] == b[i + 1] && b'[j] == b[j + 1];
      }
      SortedPermutationUnique(a', b');
      assert a == [a[0]] + a' && b == [b[0]] + b';
    }
  }

  /** The first element of a sorted permutation of a strictly ascending list is its first. */
  lemma SameHead(a: seq<string>, b: seq<string>)
    requires SortedNatural(a) && a != []
    requires forall i, j :: 0 <= i < j < |b| ==> NaturalLess(b[i], b[j])
    requires multiset(a) == multiset(b)
    ensures |a| == |b| && a[0] == b[0]
  {
    assert |a| == |multiset(a)| == |b|;
    assert a[0] in multiset(b);
    var k :| 0 <= k < |b| && b[k] == a[0];
    assert b[0] in multiset(a);
    var m :| 0 <= m < |a| && a[m] == b[0];
    SortedNaturalPairwise(a, 0, m);
    assert k == 0;
  }

  lemma TailPermutation(a: seq<string>, b: seq<string>)
    requires a != [] && b != [] && a[0] == b[0] && multiset(a) == multiset(b)
    ensures multiset(a[1..]) == multiset(b[1..])
  {
    assert a == [a[0]] + a[1..];
    assert b == [b[0]] + b[1..];
    assert multiset(a[1..]) == multiset(a) - multiset{a[0]};
    assert multiset(b[1..]) == multiset(b) - multiset{a[0]};
  }
}
