/** Natural order of file names, digits by value (internal/preloader/preloader.go:168-202). */
module NatOrder {

  predicate IsDigit(c: char) {
    '0' <= c <= '9'
  }

  function DigitOf(c: char): nat
    requires IsDigit(c)
  {
    c as int - '0' as int
  }

  const TWO_63 := 0x8000_0000_0000_0000

  /** A 64-bit integer after overflow. */
  function Wrap64(x: int): int {
    (x + TWO_63) % (2 * TWO_63) - TWO_63
  }

  predicate AllDigits(s: string) {
    forall i :: 0 <= i < |s| ==> IsDigit(s[i])
  }

  /** The value readNum computes for a run of digits. */
  function NumValue(ds: string): int
    requires AllDigits(ds)
  {
    if ds == [] then 0
    else
      var last := |ds| - 1;
      Wrap64(NumValue(ds[..last]) * 10 + DigitOf(ds[last]))
  }

  /** The number the digits stand for. */
  function TrueValue(ds: string): nat
    requires AllDigits(ds)
  {
    if ds == [] then 0 else TrueValue(ds[..|ds| - 1]) * 10 + DigitOf(ds[|ds| - 1])
  }

  lemma WrapFits(x: int)
    ensures -0x8000_0000_0000_0000 <= Wrap64(x) < 0x8000_0000_0000_0000
    ensures -0x8000_0000_0000_0000 <= x < 0x8000_0000_0000_0000 ==> Wrap64(x) == x
  {
  }

  lemma WrapTurns(x: int) returns (turns: int)
    ensures x == Wrap64(x) + turns * 0x1_0000_0000_0000_0000
  {
    turns := (x + TWO_63) / (2 * TWO_63);
  }

  /** The value read differs from the true one by a multiple of 2^64 and lies in the range of a signed 64-bit
      integer, which fixes it. */
  lemma {:induction false} NumWraps(ds: string) returns (turns: int)
    requires AllDigits(ds)
    ensures TrueValue(ds) == NumValue(ds) + turns * 0x1_0000_0000_0000_0000
    ensures -0x8000_0000_0000_0000 <= NumValue(ds) < 0x8000_0000_0000_0000
  {
    if ds == [] {
      turns := 0;
    } else {
      var init, d := ds[..|ds| - 1], DigitOf(ds[|ds| - 1]);
      var before := NumWraps(init);
      var now := WrapTurns(NumValue(init) * 10 + d);
      WrapFits(NumValue(init) * 10 + d);
      turns := before * 10 + now;
    }
  }

  /** A digit run is compared by its true value exactly when that fits in a 64-bit integer. */
  lemma NumIsTrueValue(ds: string)
    requires AllDigits(ds)
    ensures NumValue(ds) == TrueValue(ds) <==> TrueValue(ds) < 0x8000_0000_0000_0000
  {
    var turns := NumWraps(ds);
    assert turns >= 1 ==> turns * 0x1_0000_0000_0000_0000 >= 0x1_0000_0000_0000_0000;
  }

  /** How many digits a string starts with. */
  function RunLength(s: string): (n: nat)
    ensures n <= |s| && AllDigits(s[..n])
    ensures n < |s| ==> !IsDigit(s[n])
  {
    if s == [] || !IsDigit(s[0]) then 0 else 1 + RunLength(s[1..])
  }

  // ---- tokens and their order ---------------------------------------------------------------

  datatype Token = Num(value: int) | Rune(c: char)

  function Tokens(s: string): seq<Token>
    decreases |s|
  {
    if s == [] then []
    else if IsDigit(s[0]) then
      var n := RunLength(s);
      [Num(NumValue(s[..n]))] + Tokens(s[n..])
    else [Rune(s[0])] + Tokens(s[1..])
  }

  /** No rune of a token is a digit. */
  ghost predicate WellFormed(ts: seq<Token>) {
    forall i :: 0 <= i < |ts| && ts[i].Rune? ==> !IsDigit(ts[i].c)
  }

  lemma {:induction false} TokensWellFormed(s: string)
    ensures WellFormed(Tokens(s))
    decreases |s|
  {
    if s == [] {
    } else {
      TokensWellFormed(if IsDigit(s[0]) then s[RunLength(s)..] else s[1..]);
    }
  }

  /** Numbers by value, runes by code; a number sorts where digits sort among the runes. */
  predicate TokenLess(a: Token, b: Token) {
    match (a, b)
    case (Num(x), Num(y)) => x < y
    case (Rune(c), Rune(d)) => c < d
    case (Num(_), Rune(d)) => '9' < d
    case (Rune(c), Num(_)) => c < '0'
  }

  /** Lexicographic order, a proper prefix first. */
  predicate Less(a: seq<Token>, b: seq<Token>) {
    b != [] && (a == [] || TokenLess(a[0], b[0]) || (a[0] == b[0] && Less(a[1..], b[1..])))
  }

  lemma {:induction false} LessIrreflexive(a: seq<Token>)
    ensures !Less(a, a)
  {
    if a == [] {
    } else {
      LessIrreflexive(a[1..]);
    }
  }

  lemma {:induction false} LessTransitive(a: seq<Token>, b: seq<Token>, c: seq<Token>)
    requires WellFormed(a) && WellFormed(b) && WellFormed(c)
    requires Less(a, b) && Less(b, c)
    ensures Less(a, c)
  {
    if a == [] {
    } else {
      assert c != [];
      if a[0] == b[0] == c[0] {
        if Less(a[1..], b[1..]) && Less(b[1..], c[1..]) {
          LessTransitive(a[1..], b[1..], c[1..]);
        }
      }
    }
  }

  lemma {:induction false} LessTotal(a: seq<Token>, b: seq<Token>)
    requires WellFormed(a) && WellFormed(b)
    ensures Less(a, b) || Less(b, a) || a == b
  {
    if a == [] || b == [] || a[0] != b[0] {
    } else {
      LessTotal(a[1..], b[1..]);
      assert a == [a[0]] + a[1..] && b == [b[0]] + b[1..];
    }
  }

  /** The order of names that natLess decides. */
  predicate NameLess(a: string, b: string) {
    Less(Tokens(a), Tokens(b))
  }

  /** A strict weak order: irreflexive, transitive, and two names are incomparable if and only if their
      tokens agree, which makes incomparability transitive. */
  lemma StrictWeakOrder(a: string, b: string, c: string)
    ensures !NameLess(a, a)
    ensures NameLess(a, b) && NameLess(b, c) ==> NameLess(a, c)
    ensures !NameLess(a, b) && !NameLess(b, a) <==> Tokens(a) == Tokens(b)
    ensures !NameLess(a, b) && !NameLess(b, a) && !NameLess(b, c) && !NameLess(c, b) ==>
              !NameLess(a, c) && !NameLess(c, a)
    ensures NameLess(a, b) && !NameLess(b, c) && !NameLess(c, b) ==> NameLess(a, c)
  {
    TokensWellFormed(a);
    TokensWellFormed(b);
    TokensWellFormed(c);
    LessIrreflexive(Tokens(a));
    LessTotal(Tokens(a), Tokens(b));
    LessTotal(Tokens(b), Tokens(c));
    if NameLess(a, b) && NameLess(b, c) {
      LessTransitive(Tokens(a), Tokens(b), Tokens(c));
    }
  }

  /** First token and rest of a string that is not empty. */
  lemma TokenSplit(s: string)
    requires s != []
    ensures Tokens(s) != []
    ensures IsDigit(s[0]) ==> RunLength(s) > 0 && Tokens(s)[0] == Num(NumValue(s[..RunLength(s)]))
                              && Tokens(s)[1..] == Tokens(s[RunLength(s)..])
    ensures !IsDigit(s[0]) ==> Tokens(s)[0] == Rune(s[0]) && Tokens(s)[1..] == Tokens(s[1..])
  {
  }

  // ---- the order, on the names themselves ---------------------------------------------------

  predicate EndsInDigit(s: string) {
    s != [] && IsDigit(s[|s| - 1])
  }

  predicate StartsWithDigit(s: string) {
    s != [] && IsDigit(s[0])
  }

  lemma {:induction false} RunLengthConcat(p: string, x: string)
    requires !(EndsInDigit(p) && StartsWithDigit(x))
    ensures p != [] ==> RunLength(p + x) == RunLength(p)
  {
    if p == [] {
    } else {
      assert (p + x)[0] == p[0] && (p + x)[1..] == p[1..] + x;
      if |p| == 1 {
        assert p[1..] + x == x;
      } else {
        RunLengthConcat(p[1..], x);
      }
    }
  }

  /** Tokens are read piece by piece where the cut does not split a digit run. */
  lemma {:induction false} TokensConcat(p: string, x: string)
    requires !(EndsInDigit(p) && StartsWithDigit(x))
    ensures Tokens(p + x) == Tokens(p) + Tokens(x)
    decreases |p|
  {
    if p == [] {
      assert p + x == x;
    } else if IsDigit(p[0]) {
      var n := RunLength(p);
      RunLengthConcat(p, x);
      assert (p + x)[..n] == p[..n] && (p + x)[n..] == p[n..] + x;
      TokensConcat(p[n..], x);
    } else {
      assert (p + x)[1..] == p[1..] + x;
      TokensConcat(p[1..], x);
    }
  }

  lemma {:induction false} LessBehind(front: seq<Token>, a: seq<Token>, b: seq<Token>)
    ensures Less(front + a, front + b) <==> Less(a, b)
  {
    if front == [] {
      assert front + a == a && front + b == b;
    } else {
      LessBehind(front[1..], a, b);
      assert (front + a)[1..] == front[1..] + a && (front + b)[1..] == front[1..] + b;
    }
  }

  /** A common beginning does not matter where it does not end inside a digit run. */
  lemma CommonFront(p: string, x: string, y: string)
    requires !EndsInDigit(p) || !(StartsWithDigit(x) || StartsWithDigit(y))
    ensures NameLess(p + x, p + y) <==> NameLess(x, y)
  {
    TokensConcat(p, x);
    TokensConcat(p, y);
    LessBehind(Tokens(p), Tokens(x), Tokens(y));
  }

  lemma {:induction false} RunLengthAll(d: string)
    requires AllDigits(d)
    ensures RunLength(d) == |d|
  {
    if d == [] {
    } else {
      RunLengthAll(d[1..]);
    }
  }

  lemma NumberFirst(d: string, s: string)
    requires d != [] && AllDigits(d) && !StartsWithDigit(s)
    ensures Tokens(d + s) == [Num(NumValue(d))] + Tokens(s)
  {
    RunLengthAll(d);
    assert d[..|d|] == d && d[|d|..] == [];
    TokensConcat(d, s);
  }

  /** Two names that first differ in a run of digits are ordered by the numbers the digits stand for, and where
      these agree by what comes behind them. */
  lemma DigitsDecide(p: string, d: string, s: string, e: string, t: string)
    requires !EndsInDigit(p) && !StartsWithDigit(s) && !StartsWithDigit(t)
    requires d != [] && AllDigits(d) && e != [] && AllDigits(e)
    requires TrueValue(d) < 0x8000_0000_0000_0000 && TrueValue(e) < 0x8000_0000_0000_0000
    ensures NameLess(p + (d + s), p + (e + t)) <==>
              TrueValue(d) < TrueValue(e) || (TrueValue(d) == TrueValue(e) && NameLess(s, t))
  {
    CommonFront(p, d + s, e + t);
    NumberFirst(d, s);
    NumberFirst(e, t);
    NumIsTrueValue(d);
    NumIsTrueValue(e);
    var a, b := [Num(NumValue(d))] + Tokens(s), [Num(NumValue(e))] + Tokens(t);
    assert a[1..] == Tokens(s) && b[1..] == Tokens(t);
  }

  /** Two names that first differ in characters that are not both digits, outside a run of digits, are ordered by
      the codes of these characters. */
  lemma CharactersDecide(p: string, c: char, s: string, d: char, t: string)
    requires c != d && !(IsDigit(c) && IsDigit(d))
    requires EndsInDigit(p) ==> !IsDigit(c) && !IsDigit(d)
    ensures NameLess(p + ([c] + s), p + ([d] + t)) <==> c < d
  {
    var x, y := [c] + s, [d] + t;
    CommonFront(p, x, y);
    TokenSplit(x);
    TokenSplit(y);
  }

  /** A name comes before every longer one that it begins, unless that goes on within a run of digits. */
  lemma PrefixFirst(p: string, x: string)
    requires x != [] && !(EndsInDigit(p) && StartsWithDigit(x))
    ensures NameLess(p, p + x) && !NameLess(p + x, p)
  {
    CommonFront(p, [], x);
    CommonFront(p, x, []);
    assert p + [] == p;
    TokenSplit(x);
  }

  /** "E2" comes before "E10", and "E02" is neither before nor behind "E2". */
  lemma EpisodeNumbers()
    ensures NameLess("E2", "E10") && !NameLess("E10", "E2")
    ensures !NameLess("E02", "E2") && !NameLess("E2", "E02")
  {
    TrueValues();
    assert "E2" == "E" + ("2" + "") && "E10" == "E" + ("10" + "") && "E02" == "E" + ("02" + "");
    DigitsDecide("E", "2", "", "10", "");
    DigitsDecide("E", "10", "", "2", "");
    DigitsDecide("E", "02", "", "2", "");
    DigitsDecide("E", "2", "", "02", "");
  }

  lemma TrueValues()
    ensures TrueValue("2") == 2 && TrueValue("02") == 2 && TrueValue("10") == 10
  {
    assert "2"[..0] == "" && "02"[..1] == "0" && "0"[..0] == "" && "10"[..1] == "1" && "1"[..0] == "";
  }

  // ---- the code -----------------------------------------------------------------------------

  lemma ReadStep(s: string, i: nat, j: nat)
    requires i <= j < |s| && AllDigits(s[i..j]) && IsDigit(s[j])
    ensures AllDigits(s[i..j + 1]) && NumValue(s[i..j + 1]) == Wrap64(NumValue(s[i..j]) * 10 + DigitOf(s[j]))
    ensures RunLength(s[j..]) == 1 + RunLength(s[j + 1..])
  {
    assert s[i..j + 1][..j - i] == s[i..j];
    assert s[j..][1..] == s[j + 1..];
  }

  method ReadNum(s: string, i: nat) returns (n: int, j: nat)
    requires i <= |s|
    ensures j == i + RunLength(s[i..]) && i <= j <= |s|
    ensures AllDigits(s[i..j]) && n == NumValue(s[i..j])
  {
    n, j := 0, i;
    while j < |s| && IsDigit(s[j])
      invariant i <= j <= |s| && AllDigits(s[i..j])
      invariant n == NumValue(s[i..j])
      invariant RunLength(s[i..]) == j - i + RunLength(s[j..])
    {
      ReadStep(s, i, j);
      n := Wrap64(n * 10 + DigitOf(s[j]));
      j := j + 1;
    }
  }

  method NatLess(a: string, b: string) returns (less: bool)
    ensures less == NameLess(a, b)
  {
    var ai, bi := 0, 0;
    while ai < |a| && bi < |b|
      invariant 0 <= ai <= |a| && 0 <= bi <= |b|
      invariant NameLess(a, b) == NameLess(a[ai..], b[bi..])
      decreases |a| - ai
    {
      var ca, cb := a[ai], b[bi];
      ghost var ra, rb := a[ai..], b[bi..];
      if IsDigit(ca) && IsDigit(cb) {
        var ns, ne := ReadNum(a, ai);
        var ms, me := ReadNum(b, bi);
        assert ra[RunLength(ra)..] == a[ne..] && rb[RunLength(rb)..] == b[me..];
        assert ra[..RunLength(ra)] == a[ai..ne] && rb[..RunLength(rb)] == b[bi..me];
        TokenSplit(ra);
        TokenSplit(rb);
        if ns != ms {
          return ns < ms;
        }
        ai, bi := ne, me;
        continue;
      }
      assert ra[1..] == a[ai + 1..] && rb[1..] == b[bi + 1..];
      TokenSplit(ra);
      TokenSplit(rb);
      if ca != cb {
        return ca < cb;
      }
      ai := ai + 1;
      bi := bi + 1;
    }
    less := |a| - ai < |b| - bi;
  }
}
