/** String helpers shared by the resolvers: ASCII case mapping, substring
    search, character replacement, Python's `str.title` and decimal digits. */
module Text {

  predicate IsUpper(c: char) { 'A' <= c <= 'Z' }
  predicate IsLower(c: char) { 'a' <= c <= 'z' }
  /** A "cased" character in the sense of `str.title`, restricted to ASCII. */
  predicate IsLetter(c: char) { IsUpper(c) || IsLower(c) }

  function LowerChar(c: char): char { if IsUpper(c) then (c as int + 32) as char else c }
  function UpperChar(c: char): char { if IsLower(c) then (c as int - 32) as char else c }

  /** `str.lower()` on ASCII text: every upper-case letter is mapped, nothing else moves. */
  function ToLower(s: string): (r: string)
    ensures |r| == |s|
    ensures forall i :: 0 <= i < |s| ==> r[i] == LowerChar(s[i])
  {
    seq(|s|, i requires 0 <= i < |s| => LowerChar(s[i]))
  }

  lemma {:induction false} ToLowerAppend(a: string, b: string)
    ensures ToLower(a + b) == ToLower(a) + ToLower(b)
  {
    var l, r := ToLower(a + b), ToLower(a) + ToLower(b);
    assert |l| == |r|;
    forall i | 0 <= i < |l| ensures l[i] == r[i] {
      if i < |a| { assert (a + b)[i] == a[i]; } else { assert (a + b)[i] == b[i - |a|]; }
    }
  }

  predicate IsPrefix(p: string, s: string) { |p| <= |s| && s[..|p|] == p }

  /** `p in s` for Python strings: `p` occurs as a contiguous substring of `s`. */
  predicate Contains(s: string, p: string)
    decreases |s|
  {
    IsPrefix(p, s) || (|s| > 0 && Contains(s[1..], p))
  }

  /** `p` occurs in `s` starting at position `i`. */
  predicate OccursAt(s: string, p: string, i: int)
  {
    0 <= i && i + |p| <= |s| && s[i..i + |p|] == p
  }

  lemma TailSlice(s: string, i: int, n: int)
    requires 0 < i && i + n <= |s| && 0 <= n
    ensures s[1..][i - 1..i - 1 + n] == s[i..i + n]
  {
    var l, r := s[1..][i - 1..i - 1 + n], s[i..i + n];
    forall k | 0 <= k < n ensures l[k] == r[k] { }
  }

  /** An occurrence at any position is found by the recursive search. */
  lemma {:induction false} ContainsAt(s: string, p: string, i: int)
    requires OccursAt(s, p, i)
    ensures Contains(s, p)
    decreases i
  {
    if i > 0 {
      TailSlice(s, i, |p|);
      ContainsAt(s[1..], p, i - 1);
    }
  }

  /** The recursive search only succeeds when there is an occurrence. */
  lemma {:induction false} ContainsWitness(s: string, p: string) returns (i: int)
    requires Contains(s, p)
    ensures OccursAt(s, p, i)
    decreases |s|
  {
    if IsPrefix(p, s) {
      i := 0;
    } else {
      var j := ContainsWitness(s[1..], p);
      TailSlice(s, j + 1, |p|);
      i := j + 1;
    }
  }

  /** Being a substring is transitive: a name holding `p` holds every piece of `p`. */
  lemma ContainsTransitive(s: string, p: string, q: string)
    requires Contains(s, p) && Contains(p, q)
    ensures Contains(s, q)
  {
    var i := ContainsWitness(s, p);
    var j := ContainsWitness(p, q);
    var l, r := s[i + j..i + j + |q|], s[i..i + |p|][j..j + |q|];
    forall k | 0 <= k < |q| ensures l[k] == r[k] { }
    ContainsAt(s, q, i + j);
  }

  predicate CharsAt(s: string, p: string, i: int, a: int, b: int)
    requires 0 <= a < |p| && 0 <= b < |p|
  {
    0 <= i && i + |p| <= |s| && s[i + a] == p[a] && s[i + b] == p[b]
  }

  /** An occurrence of `p` puts its `a`-th and `b`-th characters in place: the
      usual way to show that a name does not hold a pattern. */
  lemma ContainsChars(s: string, p: string, a: int, b: int)
    requires 0 <= a < |p| && 0 <= b < |p|
    ensures Contains(s, p) ==> exists i :: CharsAt(s, p, i, a, b)
  {
    if Contains(s, p) {
      var i := ContainsWitness(s, p);
      assert s[i..i + |p|][a] == s[i + a] && s[i..i + |p|][b] == s[i + b];
      assert CharsAt(s, p, i, a, b);
    }
  }

  /** Text without upper-case letters is its own lower-case form. */
  lemma ToLowerIdentity(s: string)
    requires forall i :: 0 <= i < |s| ==> !IsUpper(s[i])
    ensures ToLower(s) == s
  {
  }

  /** The lower-case form holds no upper-case letter, so lowering it again
      changes nothing. */
  lemma ToLowerIdempotent(s: string)
    ensures forall i :: 0 <= i < |ToLower(s)| ==> !IsUpper(ToLower(s)[i])
    ensures ToLower(ToLower(s)) == ToLower(s)
  {
    ToLowerIdentity(ToLower(s));
  }

  /** `s.replace(a, b)` for single characters `a` and `b`. */
  function ReplaceChar(s: string, a: char, b: char): (r: string)
    ensures |r| == |s|
    ensures forall i :: 0 <= i < |s| ==> r[i] == (if s[i] == a then b else s[i])
  {
    seq(|s|, i requires 0 <= i < |s| => if s[i] == a then b else s[i])
  }

  /** Replacing `a` by `b` leaves no `a`, and where `s` had no `b` replacing
      back restores `s`. */
  lemma ReplaceCharRoundTrip(s: string, a: char, b: char)
    requires a != b
    ensures a !in ReplaceChar(s, a, b)
    ensures b !in s ==> ReplaceChar(ReplaceChar(s, a, b), b, a) == s
  {
    var r := ReplaceChar(s, a, b);
    if b !in s {
      assert forall i :: 0 <= i < |s| ==> s[i] != b;
      assert forall i :: 0 <= i < |s| ==> (r[i] == b <==> s[i] == a);
    }
  }

  /** `str.title()` on ASCII: a letter is upper-cased when the character before it
      is not a letter and lower-cased when it is; other characters are kept. */
  function TitleCase(s: string): string
  {
    TitleFrom(s, false)
  }

  function TitleFrom(s: string, previousIsCased: bool): (r: string)
    ensures |r| == |s|
  {
    if s == [] then []
    else [if previousIsCased then LowerChar(s[0]) else UpperChar(s[0])]
         + TitleFrom(s[1..], IsLetter(s[0]))
  }

  /** The per-character meaning of `TitleCase`. */
  lemma {:induction false} TitleCaseAt(s: string, i: int)
    requires 0 <= i < |s|
    ensures TitleCase(s)[i] ==
            if i > 0 && IsLetter(s[i - 1]) then LowerChar(s[i]) else UpperChar(s[i])
  {
    TitleFromAt(s, false, i);
  }

  lemma {:induction false} TitleFromAt(s: string, prev: bool, i: int)
    requires 0 <= i < |s|
    ensures TitleFrom(s, prev)[i] ==
            if (if i == 0 then prev else IsLetter(s[i - 1])) then LowerChar(s[i]) else UpperChar(s[i])
  {
    if i > 0 {
      TitleFromAt(s[1..], IsLetter(s[0]), i - 1);
      assert s[1..][i - 1] == s[i];
      if i > 1 { assert s[1..][i - 2] == s[i - 1]; }
    }
  }

  predicate IsDigit(c: char) { '0' <= c <= '9' }

  function DigitChar(d: int): char
    requires 0 <= d < 10
  {
    ('0' as int + d) as char
  }

  /** Python's `str(n)` for a natural number: decimal digits, no leading zero. */
  function NatToString(n: nat): (r: string)
    ensures |r| > 0
    ensures forall i :: 0 <= i < |r| ==> IsDigit(r[i])
  {
    if n < 10 then [DigitChar(n)] else NatToString(n / 10) + [DigitChar(n % 10)]
  }

  /** Python's `str(i)` for any integer: a minus sign before the digits of `-i`. */
  function IntToString(i: int): (r: string)
    ensures |r| > 0
  {
    if i < 0 then "-" + NatToString(-i) else NatToString(i)
  }

  /** Reads a string of decimal digits back to the number it denotes. */
  function ParseDigits(s: string): int
  {
    if s == [] then 0 else 10 * ParseDigits(s[..|s| - 1]) + (s[|s| - 1] as int - '0' as int)
  }

  lemma {:induction false} ParseNatToString(n: nat)
    ensures ParseDigits(NatToString(n)) == n
  {
    var s := NatToString(n);
    if n >= 10 {
      ParseNatToString(n / 10);
      assert s[..|s| - 1] == NatToString(n / 10);
    }
  }

  /** Reads the output of `IntToString` back. */
  function ParseInt(s: string): int
  {
    if |s| > 0 && s[0] == '-' then -ParseDigits(s[1..]) else ParseDigits(s)
  }

  lemma ParseIntToString(i: int)
    ensures ParseInt(IntToString(i)) == i
  {
    if i < 0 {
      ParseNatToString(-i);
      assert IntToString(i)[1..] == NatToString(-i);
    } else {
      ParseNatToString(i);
    }
  }
}
