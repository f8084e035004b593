/**
 * The parts of java.lang.String and java.lang.Integer that the configuration
 * reader relies on: trim, toLowerCase, split on a one-character pattern and
 * Integer.parseInt in radix 10.
 */
module JavaString {
  import opened Results
  import opened JavaInt

  // ---------------------------------------------------------------- trim

  /** String.trim removes every character whose code is at most U+0020. */
  predicate IsTrimmable(c: char) {
    c <= ' '
  }

  function TrimStart(s: string): (r: string)
    decreases |s|
  {
    if s != [] && IsTrimmable(s[0]) then TrimStart(s[1..]) else s
  }

  function TrimEnd(s: string): (r: string)
    decreases |s|
  {
    if s != [] && IsTrimmable(s[|s| - 1]) then TrimEnd(s[..|s| - 1]) else s
  }

  /** TrimStart removes exactly the leading run of trimmable characters. */
  lemma {:induction false} TrimStartSpec(s: string)
    ensures |TrimStart(s)| <= |s| && TrimStart(s) == s[|s| - |TrimStart(s)|..]
    ensures TrimStart(s) == [] || !IsTrimmable(TrimStart(s)[0])
    ensures forall i :: 0 <= i < |s| - |TrimStart(s)| ==> IsTrimmable(s[i])
    decreases |s|
  {
    if s != [] && IsTrimmable(s[0]) {
      TrimStartSpec(s[1..]);
    }
  }

  /** TrimEnd removes exactly the trailing run of trimmable characters. */
  lemma {:induction false} TrimEndSpec(s: string)
    ensures |TrimEnd(s)| <= |s| && TrimEnd(s) == s[..|TrimEnd(s)|]
    ensures TrimEnd(s) == [] || !IsTrimmable(TrimEnd(s)[|TrimEnd(s)| - 1])
    ensures forall i :: |TrimEnd(s)| <= i < |s| ==> IsTrimmable(s[i])
    decreases |s|
  {
    if s != [] && IsTrimmable(s[|s| - 1]) {
      TrimEndSpec(s[..|s| - 1]);
    }
  }

  /** String.trim: the longest infix of s that neither starts nor ends with a trimmable character. */
  function Trim(s: string): (r: string)
    ensures |r| <= |s|
    ensures r == [] || (!IsTrimmable(r[0]) && !IsTrimmable(r[|r| - 1]))
  {
    TrimStartSpec(s);
    TrimEndSpec(TrimStart(s));
    TrimEnd(TrimStart(s))
  }

  /**
   * Trim keeps the infix of s that starts after the leading run of trimmable
   * characters; everything outside it is trimmable. So it drops only
   * trimmable characters and keeps every other one.
   */
  lemma TrimSpec(s: string)
    ensures var i := |s| - |TrimStart(s)|;
      0 <= i && i + |Trim(s)| <= |s| && Trim(s) == s[i..i + |Trim(s)|]
    ensures var i := |s| - |TrimStart(s)|;
      forall j :: 0 <= j < |s| && !(i <= j < i + |Trim(s)|) ==> IsTrimmable(s[j])
    ensures forall c :: c in Trim(s) ==> c in s
    ensures forall c :: c in s && !IsTrimmable(c) ==> c in Trim(s)
  {
    var t := TrimStart(s);
    TrimStartSpec(s);
    TrimEndSpec(t);
    var r := TrimEnd(t);
    var i := |s| - |t|;
    assert r == s[i..i + |r|];
    forall c | c in r ensures c in s {
      var k :| 0 <= k < |r| && r[k] == c;
      assert s[i + k] == c;
    }
    forall j | 0 <= j < |s| && !(i <= j < i + |r|) ensures IsTrimmable(s[j]) {
      if j >= i {
        assert s[j] == t[j - i];
      }
    }
    forall c | c in s && !IsTrimmable(c) ensures c in r {
      var j :| 0 <= j < |s| && s[j] == c;
      assert r[j - i] == c;
    }
  }

  /** A string already free of leading and trailing blanks is its own trim. */
  lemma {:induction false} TrimUntrimmed(s: string)
    requires s == [] || (!IsTrimmable(s[0]) && !IsTrimmable(s[|s| - 1]))
    ensures Trim(s) == s
  {
    assert TrimStart(s) == s;
  }

  /** Trimming twice is trimming once. */
  lemma TrimIdempotent(s: string)
    ensures Trim(Trim(s)) == Trim(s)
  {
    TrimUntrimmed(Trim(s));
  }

  /** A string whose first character is not trimmable keeps that character first after trimming. */
  lemma {:induction false} TrimKeepsFirst(s: string)
    requires s != [] && !IsTrimmable(s[0])
    ensures Trim(s) != [] && Trim(s)[0] == s[0]
  {
    assert TrimStart(s) == s;
    TrimEndSpec(s);
  }

  // --------------------------------------------------------- toLowerCase

  /** Character.toLowerCase on the ASCII letters; every other character is kept. */
  function LowerChar(c: char): (r: char)
  {
    if 'A' <= c <= 'Z' then (c as int + ('a' as int - 'A' as int)) as char else c
  }

  predicate IsUpper(c: char) {
    'A' <= c <= 'Z'
  }

  /** No ASCII upper-case letter occurs in s. */
  predicate LowerCase(s: string) {
    forall i :: 0 <= i < |s| ==> !IsUpper(s[i])
  }

  /**
   * String.toLowerCase: each ASCII upper-case letter becomes lower case, so
   * no upper-case letter is left, and a string without one is unchanged.
   */
  function ToLower(s: string): (r: string)
    ensures |r| == |s|
    ensures forall i :: 0 <= i < |s| ==> r[i] == LowerChar(s[i])
    ensures LowerCase(r)
    ensures LowerCase(s) ==> r == s
  {
    seq(|s|, i requires 0 <= i < |s| => LowerChar(s[i]))
  }

  /** Every character of a lower-cased string that is not a lower-case letter was already in the input. */
  lemma {:induction false} ToLowerMeaning(s: string)
    ensures forall c :: c in ToLower(s) && !('a' <= c <= 'z') ==> c in s
  {
    var r := ToLower(s);
    forall c | c in r && !('a' <= c <= 'z') ensures c in s {
      var i :| 0 <= i < |r| && r[i] == c;
      assert LowerChar(s[i]) == c;
    }
  }

  /** Lower-casing twice is lower-casing once. */
  lemma ToLowerIdempotent(s: string)
    ensures ToLower(ToLower(s)) == ToLower(s)
  {
  }

  // --------------------------------------------------------------- split

  /** Joins pieces with sep between consecutive ones. */
  function Join(xs: seq<string>, sep: char): (r: string)
    requires |xs| >= 1
    decreases |xs|
  {
    if |xs| == 1 then xs[0] else xs[0] + [sep] + Join(xs[1..], sep)
  }

  /** The pieces of s between occurrences of sep: k occurrences give k + 1 pieces. */
  function Pieces(s: string, sep: char): (r: seq<string>)
    ensures |r| >= 1
    ensures forall i :: 0 <= i < |r| ==> sep !in r[i]
    ensures Join(r, sep) == s
    decreases |s|
  {
    if s == [] then [[]]
    else
      var rest := Pieces(s[1..], sep);
      if s[0] == sep then
        assert ([[]] + rest)[1..] == rest;
        [[]] + rest
      else
        var r := [[s[0]] + rest[0]] + rest[1..];
        assert r[1..] == rest[1..];
        assert |rest| > 1 ==> Join(rest, sep) == rest[0] + [sep] + Join(rest[1..], sep);
        assert s == [s[0]] + s[1..];
        r
  }

  lemma {:induction false} PiecesWithoutSep(s: string, sep: char)
    requires sep !in s
    ensures Pieces(s, sep) == [s]
    decreases |s|
  {
    if s != [] {
      PiecesWithoutSep(s[1..], sep);
      assert s == [s[0]] + s[1..];
    }
  }

  lemma {:induction false} PiecesAfterSep(k: string, t: string, sep: char)
    requires sep !in k
    ensures Pieces(k + [sep] + t, sep) == [k] + Pieces(t, sep)
    decreases |k|
  {
    var s := k + [sep] + t;
    if k == [] {
      assert s[1..] == t;
    } else {
      assert s[1..] == k[1..] + [sep] + t;
      PiecesAfterSep(k[1..], t, sep);
      assert [k[0]] + k[1..] == k;
    }
  }

  /** Pieces undoes Join when no piece holds the separator. */
  lemma {:induction false} PiecesOfJoin(xs: seq<string>, sep: char)
    requires |xs| >= 1
    requires forall i :: 0 <= i < |xs| ==> sep !in xs[i]
    ensures Pieces(Join(xs, sep), sep) == xs
    decreases |xs|
  {
    if |xs| == 1 {
      PiecesWithoutSep(xs[0], sep);
    } else {
      PiecesOfJoin(xs[1..], sep);
      PiecesAfterSep(xs[0], Join(xs[1..], sep), sep);
      assert [xs[0]] + xs[1..] == xs;
    }
  }

  /** Drops the empty strings at the end of xs, as String.split does. */
  function DropTrailingEmpty(xs: seq<string>): (r: seq<string>)
    ensures |r| <= |xs| && r == xs[..|r|]
    ensures r == [] || r[|r| - 1] != []
    ensures forall i :: |r| <= i < |xs| ==> xs[i] == []
    decreases |xs|
  {
    if xs != [] && xs[|xs| - 1] == [] then DropTrailingEmpty(xs[..|xs| - 1]) else xs
  }

  /**
   * String.split with a one-character pattern that is not a regular-expression
   * metacharacter: without a match the result is the string itself; otherwise
   * the pieces between matches, minus the trailing empty ones.
   */
  function Split(s: string, sep: char): (r: seq<string>)
    ensures sep !in s ==> r == [s]
    ensures sep in s ==> r == [] || r[|r| - 1] != []
  {
    if sep !in s then [s] else DropTrailingEmpty(Pieces(s, sep))
  }

  /** No piece of a split holds the separator. */
  lemma SplitPiecesFree(s: string, sep: char)
    ensures forall i :: 0 <= i < |Split(s, sep)| ==> sep !in Split(s, sep)[i]
  {
    if sep in s {
      var ps := Pieces(s, sep);
      var r := DropTrailingEmpty(ps);
      assert forall i :: 0 <= i < |r| ==> r[i] == ps[i];
    }
  }

  /** Split undoes Join when there are at least two pieces, none holds the separator and the last is non-empty. */
  lemma SplitOfJoin(xs: seq<string>, sep: char)
    requires |xs| >= 2 && xs[|xs| - 1] != []
    requires forall i :: 0 <= i < |xs| ==> sep !in xs[i]
    ensures Split(Join(xs, sep), sep) == xs
  {
    PiecesOfJoin(xs, sep);
    assert Join(xs, sep) == xs[0] + [sep] + Join(xs[1..], sep);
    assert sep in Join(xs, sep) by {
      assert Join(xs, sep)[|xs[0]|] == sep;
    }
  }

  /** "k=v" splits into [k, v] when neither holds '=' and v is not empty. */
  lemma SplitPair(k: string, v: string, sep: char)
    requires sep !in k && sep !in v && v != []
    ensures Split(k + [sep] + v, sep) == [k, v]
  {
    assert Join([k, v], sep) == k + [sep] + v by {
      assert [k, v][1..] == [v];
    }
    SplitOfJoin([k, v], sep);
  }

  /** "k=" keeps at most the one piece k: the empty piece after the separator is dropped. */
  lemma SplitTrailingSep(k: string, sep: char)
    requires sep !in k
    ensures Split(k + [sep], sep) == if k == [] then [] else [k]
  {
    PiecesAfterSep(k, [], sep);
    assert k + [sep] + [] == k + [sep];
    assert (k + [sep])[|k|] == sep;
    if k == [] {
      assert DropTrailingEmpty([[]]) == [];
    }
  }

  /** "a=b=d" has three pieces when d is not empty. */
  lemma SplitTriple(a: string, b: string, d: string, sep: char)
    requires sep !in a && sep !in b && sep !in d && d != []
    ensures Split(a + [sep] + b + [sep] + d, sep) == [a, b, d]
  {
    var xs := [a, b, d];
    assert Join(xs, sep) == a + [sep] + b + [sep] + d by {
      assert xs[1..] == [b, d];
      assert xs[1..][1..] == [d];
      assert Join(xs[1..], sep) == b + [sep] + d;
    }
    SplitOfJoin(xs, sep);
  }

  // ------------------------------------------------------------ parseInt

  predicate IsDigit(c: char) {
    '0' <= c <= '9'
  }

  predicate AllDigits(ds: string) {
    forall i :: 0 <= i < |ds| ==> IsDigit(ds[i])
  }

  /** The value of a string of decimal digits, most significant first. */
  function DigitsValue(ds: string): (v: nat)
    requires AllDigits(ds)
    decreases |ds|
  {
    if ds == [] then 0
    else DigitsValue(ds[..|ds| - 1]) * 10 + (ds[|ds| - 1] as int - '0' as int)
  }

  /** Decimal digits of m without leading zeros, the way Integer.toString writes them. */
  function NatDigits(m: nat): (ds: string)
    ensures ds != [] && AllDigits(ds)
    ensures DigitsValue(ds) == m
    decreases m
  {
    var last := ((m % 10) + '0' as int) as char;
    if m < 10 then [last]
    else
      var ds := NatDigits(m / 10) + [last];
      assert ds[..|ds| - 1] == NatDigits(m / 10);
      ds
  }

  /** Integer.toString. */
  function ShowInt(n: int): (s: string)
  {
    if n < 0 then "-" + NatDigits(-n) else NatDigits(n)
  }

  /** An optional '-' or '+' followed by at least one ASCII digit. */
  predicate IntLiteral(s: string) {
    (s != [] && AllDigits(s)) || (|s| >= 2 && (s[0] == '-' || s[0] == '+') && AllDigits(s[1..]))
  }

  /** The value an integer literal denotes, in unbounded arithmetic. */
  function LiteralValue(s: string): int
    requires IntLiteral(s)
  {
    if AllDigits(s) then DigitsValue(s)
    else if s[0] == '-' then 0 - DigitsValue(s[1..]) as int
    else DigitsValue(s[1..])
  }

  /**
   * Integer.parseInt(s) in radix 10. None stands for the
   * NumberFormatException it throws: only an integer literal is read, and a
   * negative result needs a leading '-'.
   */
  function ParseInt(s: string): (r: Option<int32>)
    ensures r.Some? ==> IntLiteral(s)
    ensures r.Some? && r.value < 0 ==> s[0] == '-'
  {
    if s == [] then None
    else
      var digits := if s[0] == '-' || s[0] == '+' then s[1..] else s;
      if digits == [] || !AllDigits(digits) then None
      else
        var v: int := if s[0] == '-' then 0 - DigitsValue(digits) as int else DigitsValue(digits);
        if INT_MIN <= v <= INT_MAX then Some(v) else None
  }

  /** parseInt reads back every `int` that Integer.toString writes. */
  lemma ParseShow(n: int32)
    ensures ParseInt(ShowInt(n)) == Some(n)
  {
    var s := ShowInt(n);
    if n < 0 {
      assert s[1..] == NatDigits(-(n as int));
    } else {
      assert IsDigit(s[0]);
    }
  }

  /**
   * parseInt accepts exactly the integer literals whose value fits in an
   * `int`, and returns that value.
   */
  lemma ParseIntShape(s: string)
    ensures ParseInt(s).Some? <==> IntLiteral(s) && INT_MIN <= LiteralValue(s) <= INT_MAX
    ensures ParseInt(s).Some? ==> ParseInt(s).value == LiteralValue(s)
  {
    if IntLiteral(s) && !AllDigits(s) {
      assert !IsDigit(s[0]);
    }
  }

  /** Integer.toString never writes a '-' except as the sign, and writes only digits after it. */
  lemma ShowNonNegative(n: nat)
    ensures ShowInt(n) == NatDigits(n) && '-' !in ShowInt(n) && '=' !in ShowInt(n)
  {
  }
}
