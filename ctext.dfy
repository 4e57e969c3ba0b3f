/**
 * The C library behaviour the importer leans on: strtok over the delimiters
 * " \t\n\r", atoi/atol on a token or attribute value, std::string::find,
 * and the integer conversions to size_t and int32.
 */
module CText {

  // ---------------------------------------------------------------------
  // Tokenizing with strtok(buf, " \t\n\r")
  // ---------------------------------------------------------------------

  /** The delimiter set every strtok call of the importer passes. */
  predicate IsDelim(c: char)
  {
    c == ' ' || c == '\t' || c == '\n' || c == '\r'
  }

  /** A token strtok can return: non-empty and free of delimiters. */
  predicate IsWord(w: string)
  {
    w != [] && forall k :: 0 <= k < |w| ==> !IsDelim(w[k])
  }

  /** The length of the run of non-delimiters at the start of `s`. */
  function WordLen(s: string): (n: nat)
    ensures n <= |s|
    ensures forall k :: 0 <= k < n ==> !IsDelim(s[k])
    ensures n < |s| ==> IsDelim(s[n])
  {
    if s == [] || IsDelim(s[0]) then 0 else 1 + WordLen(s[1..])
  }

  /**
   * The tokens successive strtok calls return: the maximal runs of
   * non-delimiters, in order; runs of delimiters only separate them.
   */
  function Tokens(s: string): (ts: seq<string>)
    ensures forall k :: 0 <= k < |ts| ==> IsWord(ts[k])
    decreases |s|
  {
    if s == [] then []
    else if IsDelim(s[0]) then Tokens(s[1..])
    else
      var n := WordLen(s);
      [s[..n]] + Tokens(s[n..])
  }

  /** The characters of `s` that are not delimiters, in order. */
  function NonDelims(s: string): string
  {
    if s == [] then [] else (if IsDelim(s[0]) then [] else [s[0]]) + NonDelims(s[1..])
  }

  /** The tokens glued back together. */
  function Concat(ts: seq<string>): string
  {
    if ts == [] then [] else ts[0] + Concat(ts[1..])
  }

  /** The tokens written out with one space between neighbours. */
  function Join(ts: seq<string>): string
  {
    if ts == [] then []
    else if |ts| == 1 then ts[0]
    else ts[0] + " " + Join(ts[1..])
  }

  /**
   * The strtok loop `for (s = strtok(buf, " \t\n\r"); s; s = strtok(NULL, " \t\n\r"))`,
   * collecting every token it returns.
   */
  method Tokenize(s: string) returns (toks: seq<string>)
    ensures toks == Tokens(s)
  {
    toks := [];
    var i := 0;
    while i < |s|
      invariant 0 <= i <= |s|
      invariant toks + Tokens(s[i..]) == Tokens(s)
      decreases |s| - i
    {
      if IsDelim(s[i]) {
        TokensSkip(s, i);
        i := i + 1;
      } else {
        var j := i;
        while j < |s| && !IsDelim(s[j])
          invariant i <= j <= |s|
          invariant forall k :: i <= k < j ==> !IsDelim(s[k])
        {
          j := j + 1;
        }
        TokensTake(s, i, j);
        toks := toks + [s[i..j]];
        i := j;
      }
    }
    assert toks + Tokens([]) == toks;
  }

  /** strtok steps over a delimiter. */
  lemma TokensSkip(s: string, i: nat)
    requires i < |s| && IsDelim(s[i])
    ensures Tokens(s[i..]) == Tokens(s[i + 1..])
  {
    assert s[i..][1..] == s[i + 1..];
  }

  /** strtok returns the run of non-delimiters from `i` to `j`. */
  lemma TokensTake(s: string, i: nat, j: nat)
    requires i < j <= |s|
    requires forall k :: i <= k < j ==> !IsDelim(s[k])
    requires j == |s| || IsDelim(s[j])
    ensures Tokens(s[i..]) == [s[i..j]] + Tokens(s[j..])
  {
    WordLenExact(s[i..], j - i);
    assert s[i..][..j - i] == s[i..j];
    assert s[i..][j - i..] == s[j..];
  }

  /** A run of non-delimiters ended by a delimiter or by the end is the word length. */
  lemma {:induction false} WordLenExact(s: string, n: nat)
    requires n <= |s|
    requires forall k :: 0 <= k < n ==> !IsDelim(s[k])
    requires n == |s| || IsDelim(s[n])
    ensures WordLen(s) == n
  {
    if n > 0 {
      WordLenExact(s[1..], n - 1);
    }
  }

  /** A string has no tokens exactly when it consists of delimiters only. */
  lemma {:induction false} NoTokens(s: string)
    ensures Tokens(s) == [] <==> forall k :: 0 <= k < |s| ==> IsDelim(s[k])
  {
    if s != [] && IsDelim(s[0]) {
      NoTokens(s[1..]);
      assert forall k :: 1 <= k < |s| ==> s[k] == s[1..][k - 1];
    }
  }

  lemma {:induction false} NonDelimsAppend(a: string, b: string)
    ensures NonDelims(a + b) == NonDelims(a) + NonDelims(b)
  {
    if a == [] {
      assert a + b == b;
    } else {
      assert (a + b)[1..] == a[1..] + b;
      NonDelimsAppend(a[1..], b);
    }
  }

  lemma {:induction false} NonDelimsOfWord(w: string)
    requires forall k :: 0 <= k < |w| ==> !IsDelim(w[k])
    ensures NonDelims(w) == w
  {
    if w != [] {
      NonDelimsOfWord(w[1..]);
    }
  }

  /** No character is lost or reordered: the tokens in order are exactly the non-delimiters. */
  lemma {:induction false} TokensKeepText(s: string)
    ensures Concat(Tokens(s)) == NonDelims(s)
    decreases |s|
  {
    if s == [] {
    } else if IsDelim(s[0]) {
      TokensKeepText(s[1..]);
    } else {
      var n := WordLen(s);
      assert s == s[..n] + s[n..];
      NonDelimsAppend(s[..n], s[n..]);
      NonDelimsOfWord(s[..n]);
      TokensKeepText(s[n..]);
      assert ([s[..n]] + Tokens(s[n..]))[1..] == Tokens(s[n..]);
    }
  }

  /** A word followed by nothing or by a delimiter is the first token. */
  lemma {:induction false} TokensOfWordThen(w: string, r: string)
    requires IsWord(w)
    requires r == [] || IsDelim(r[0])
    ensures Tokens(w + r) == [w] + Tokens(r)
  {
    var s := w + r;
    WordLenExact(s, |w|);
    assert s[..|w|] == w;
    assert s[|w|..] == r;
  }

  /** Tokenizing a space-joined list of words gives back the list. */
  lemma {:induction false} TokensOfJoin(ts: seq<string>)
    requires forall k :: 0 <= k < |ts| ==> IsWord(ts[k])
    ensures Tokens(Join(ts)) == ts
  {
    if ts == [] {
    } else if |ts| == 1 {
      TokensOfWordThen(ts[0], []);
      assert ts[0] + [] == ts[0];
    } else {
      var rest := " " + Join(ts[1..]);
      assert ts[0] + " " + Join(ts[1..]) == ts[0] + rest;
      TokensOfWordThen(ts[0], rest);
      assert rest[1..] == Join(ts[1..]);
      TokensOfJoin(ts[1..]);
      assert [ts[0]] + ts[1..] == ts;
    }
  }

  // ---------------------------------------------------------------------
  // atoi / atol
  // ---------------------------------------------------------------------

  /** isspace in the C locale: what atoi/atol skip before the number. */
  predicate IsSpace(c: char)
  {
    c == ' ' || c == '\t' || c == '\n' || c == '\U{0B}' || c == '\U{0C}' || c == '\r'
  }

  predicate IsDigit(c: char)
  {
    '0' <= c <= '9'
  }

  function SkipSpaces(s: string): (t: string)
    ensures |t| <= |s| && t == s[|s| - |t|..]
    ensures t == [] || !IsSpace(t[0])
  {
    if s != [] && IsSpace(s[0]) then SkipSpaces(s[1..]) else s
  }

  /** The value of the leading digits of `s`, read most significant first onto `acc`. */
  function DigitsValue(s: string, acc: nat): nat
  {
    if s != [] && IsDigit(s[0]) then DigitsValue(s[1..], acc * 10 + (s[0] as int - '0' as int)) else acc
  }

  /** The number at the start of text that does not start with white space: an optional sign, then digits. */
  function SignedDigits(t: string): int
  {
    if t != [] && t[0] == '-' then -(DigitsValue(t[1..], 0) as int)
    else if t != [] && t[0] == '+' then DigitsValue(t[1..], 0)
    else DigitsValue(t, 0)
  }

  /**
   * atoi and atol: skip leading white space, take an optional sign, then the
   * longest run of decimal digits; text with no digits there reads as 0.
   */
  function Atoi(s: string): int
    decreases |s|
  {
    if s != [] && IsSpace(s[0]) then Atoi(s[1..]) else SignedDigits(s)
  }

  /** atoi reads the signed digits that follow the leading white space. */
  lemma {:induction false} AtoiSkipsSpaces(s: string)
    ensures Atoi(s) == SignedDigits(SkipSpaces(s))
    decreases |s|
  {
    if s != [] && IsSpace(s[0]) {
      AtoiSkipsSpaces(s[1..]);
    }
  }

  /** The decimal rendering of a natural number, most significant digit first. */
  function Decimal(n: nat): (d: string)
    ensures d != [] && forall k :: 0 <= k < |d| ==> IsDigit(d[k])
  {
    if n < 10 then [('0' as int + n) as char]
    else Decimal(n / 10) + [('0' as int + n % 10) as char]
  }

  lemma {:induction false} DigitsValueAppend(d: string, r: string, acc: nat)
    requires forall k :: 0 <= k < |d| ==> IsDigit(d[k])
    ensures DigitsValue(d + r, acc) == DigitsValue(r, DigitsValue(d, acc))
  {
    if d == [] {
      assert d + r == r;
    } else {
      assert (d + r)[0] == d[0];
      assert (d + r)[1..] == d[1..] + r;
      DigitsValueAppend(d[1..], r, acc * 10 + (d[0] as int - '0' as int));
    }
  }

  lemma {:induction false} DigitsOfDecimal(n: nat)
    ensures DigitsValue(Decimal(n), 0) == n
  {
    if n >= 10 {
      var c := ('0' as int + n % 10) as char;
      DigitsValueAppend(Decimal(n / 10), [c], 0);
      DigitsOfDecimal(n / 10);
    }
  }

  /** atoi reads back what Decimal writes. */
  lemma AtoiOfDecimal(n: nat)
    ensures Atoi(Decimal(n)) == n
  {
    var d := Decimal(n);
    DigitsOfDecimal(n);
    assert !IsSpace(d[0]) && d[0] != '-' && d[0] != '+';
  }

  /** atoi reads back a minus sign followed by what Decimal writes. */
  lemma AtoiOfNegDecimal(n: nat)
    ensures Atoi("-" + Decimal(n)) == -(n as int)
  {
    var d := Decimal(n);
    DigitsOfDecimal(n);
    var m := "-" + d;
    assert m[0] == '-' && m[1..] == d;
  }

  /** Leading white space does not change what atoi reads. */
  lemma {:induction false} AtoiAfterSpaces(ws: string, s: string)
    requires forall k :: 0 <= k < |ws| ==> IsSpace(ws[k])
    ensures Atoi(ws + s) == Atoi(s)
    decreases |ws|
  {
    if ws != [] {
      assert (ws + s)[0] == ws[0];
      assert (ws + s)[1..] == ws[1..] + s;
      AtoiAfterSpaces(ws[1..], s);
    } else {
      assert ws + s == s;
    }
  }

  /** The digits of `n`, then text that does not go on with a digit, have the value `n`. */
  lemma DigitsThenStop(n: nat, r: string)
    requires r == [] || !IsDigit(r[0])
    ensures DigitsValue(Decimal(n) + r, 0) == n
  {
    DigitsValueAppend(Decimal(n), r, 0);
    DigitsOfDecimal(n);
  }

  /** Digits followed by text that does not go on with a digit read as the value of the digits. */
  lemma AtoiPrefix(n: nat, r: string)
    requires r == [] || !IsDigit(r[0])
    ensures Atoi(Decimal(n) + r) == n
  {
    var s := Decimal(n) + r;
    DigitsThenStop(n, r);
    assert s[0] == Decimal(n)[0];
  }

  /** A sign character, then digits, then text that does not go on with a digit. */
  lemma AtoiSignedPrefix(c: char, n: nat, r: string)
    requires c == '-' || c == '+'
    requires r == [] || !IsDigit(r[0])
    ensures Atoi([c] + (Decimal(n) + r)) == if c == '-' then -(n as int) else n
  {
    var tail := Decimal(n) + r;
    var s := [c] + tail;
    assert s[0] == c && s[1..] == tail;
    assert Atoi(s) == SignedDigits(s);
    assert DigitsValue(tail, 0) == n by {
      DigitsThenStop(n, r);
    }
  }

  /**
   * The general reading: white space, an optional sign, the digits of `n`,
   * then text that does not go on with a digit, reads as the signed value of `n`.
   */
  lemma AtoiReads(ws: string, sign: string, n: nat, r: string)
    requires forall k :: 0 <= k < |ws| ==> IsSpace(ws[k])
    requires sign == "" || sign == "+" || sign == "-"
    requires r == [] || !IsDigit(r[0])
    ensures Atoi(ws + (sign + (Decimal(n) + r))) == if sign == "-" then -(n as int) else n
  {
    var tail := Decimal(n) + r;
    var s := sign + tail;
    assert Atoi(ws + s) == Atoi(s) by {
      AtoiAfterSpaces(ws, s);
    }
    if sign == "" {
      assert Atoi(s) == n by {
        assert s == tail;
        AtoiPrefix(n, r);
      }
    } else if sign == "+" {
      assert Atoi(s) == n by {
        assert s == ['+'] + tail;
        AtoiSignedPrefix('+', n, r);
      }
    } else {
      assert Atoi(s) == -(n as int) by {
        assert s == ['-'] + tail;
        AtoiSignedPrefix('-', n, r);
      }
    }
  }

  /** Text that does not start (after white space and a sign) with a digit reads as 0. */
  lemma AtoiGarbage(s: string)
    requires var t := SkipSpaces(s);
      var u := if t != [] && (t[0] == '-' || t[0] == '+') then t[1..] else t;
      u == [] || !IsDigit(u[0])
    ensures Atoi(s) == 0
  {
    AtoiSkipsSpaces(s);
  }

  // ---------------------------------------------------------------------
  // std::string::find and integer conversions
  // ---------------------------------------------------------------------

  /** `p` occurs in `s` starting at position `i`. */
  predicate OccursAt(s: string, p: string, i: int)
  {
    0 <= i && i + |p| <= |s| && s[i..i + |p|] == p
  }

  /** `s.find(p) != std::string::npos`: `p` occurs somewhere in `s`. */
  function HasSubstring(s: string, p: string): (r: bool)
    ensures r <==> exists i :: OccursAt(s, p, i)
    decreases |s|
  {
    if |s| < |p| then false
    else if s[..|p|] == p then assert OccursAt(s, p, 0); true
    else
      var r := HasSubstring(s[1..], p);
      assert forall i :: OccursAt(s, p, i) ==> i >= 1 && OccursAt(s[1..], p, i - 1) by {
        forall i | OccursAt(s, p, i) ensures i >= 1 && OccursAt(s[1..], p, i - 1) {
          assert s[1..][i - 1..i - 1 + |p|] == s[i..i + |p|];
        }
      }
      assert r ==> exists i :: OccursAt(s, p, i) by {
        if r {
          var i :| OccursAt(s[1..], p, i);
          assert s[1..][i..i + |p|] == s[i + 1..i + 1 + |p|];
          assert OccursAt(s, p, i + 1);
        }
      }
      r
  }

  const SizeModulus: int := 0x1_0000_0000_0000_0000

  /** size_t(-1), the "not set" marker the Mesh binding loops start from. */
  const SizeMax: nat := SizeModulus - 1

  /** The conversion of an integer to the 64-bit size_t. */
  function AsSize(v: int): int
  {
    v % SizeModulus
  }

  /** The conversion stays within size_t and leaves a value already in range unchanged. */
  lemma AsSizeRange(v: int)
    ensures 0 <= AsSize(v) <= SizeMax
    ensures 0 <= v <= SizeMax ==> AsSize(v) == v
  {
  }

  /** A negative value wraps around to the top of the size_t range. */
  lemma AsSizeOfNegative(v: int)
    requires -SizeModulus <= v < 0
    ensures AsSize(v) == v + SizeModulus
  {
  }

  /** The truncating conversion of an integer to int32. */
  function ToInt32(v: int): int
  {
    (v + 0x8000_0000) % 0x1_0000_0000 - 0x8000_0000
  }

  /** The conversion stays within int32 and leaves a value already in range unchanged. */
  lemma ToInt32Range(v: int)
    ensures -0x8000_0000 <= ToInt32(v) < 0x8000_0000
    ensures -0x8000_0000 <= v < 0x8000_0000 ==> ToInt32(v) == v
  {
  }

  /** A value just past the int32 range wraps around to the other end. */
  lemma ToInt32Wraps(v: int)
    requires 0x8000_0000 <= v < 0x1_0000_0000
    ensures ToInt32(v) == v - 0x1_0000_0000
  {
  }
}
