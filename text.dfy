/** The string operations the backend and the pages rely on: lower-casing
    (C# ToLower, JavaScript toLowerCase), JavaScript trim and includes, and
    the decimal rendering of an integer (String(n) in JavaScript). */
module Text {

  /** Lower-casing of one character. Only the ASCII letters are mapped; the
      culture-dependent mappings of other scripts are not modelled. */
  function LowerChar(c: char): (r: char)
    ensures 'A' <= c <= 'Z' ==> 'a' <= r <= 'z' && r as int - c as int == 32
    ensures !('A' <= c <= 'Z') ==> r == c
  {
    if 'A' <= c <= 'Z' then (c as int + 32) as char else c
  }

  function Lower(s: string): (r: string)
    ensures |r| == |s|
    ensures forall i :: 0 <= i < |s| ==> r[i] == LowerChar(s[i])
  {
    seq(|s|, i requires 0 <= i < |s| => LowerChar(s[i]))
  }

  /** Lower-casing works character by character: a prefix lower-cases to
      the prefix of the lower-cased string. */
  lemma LowerPrefix(s: string, n: nat)
    requires n <= |s|
    ensures Lower(s)[..n] == Lower(s[..n])
  {
  }

  /** Lower-casing a string with one more character appends that
      character lower-cased. */
  lemma LowerSnoc(s: string, c: char)
    ensures Lower(s + [c]) == Lower(s) + [LowerChar(c)]
  {
    var l := Lower(s + [c]);
    assert l[..|s|] == Lower(s) by {
      LowerPrefix(s + [c], |s|);
      assert (s + [c])[..|s|] == s;
    }
    assert l == l[..|s|] + [l[|s|]];
  }

  /** Lower-casing twice is lower-casing once. */
  lemma LowerIdempotent(s: string)
    ensures Lower(Lower(s)) == Lower(s)
  {
    var once := Lower(s);
    forall i | 0 <= i < |s| ensures Lower(once)[i] == once[i] {
      assert LowerChar(once[i]) == once[i];
    }
  }

  /** The characters JavaScript's String.prototype.trim removes: tab,
      vertical tab, form feed, the byte order mark, the space separators of
      Unicode category Zs, and the line terminators. */
  predicate IsSpace(c: char)
    ensures IsSpace(c) ==> !('0' <= c <= '9' || 'a' <= c <= 'z' || 'A' <= c <= 'Z' || c == '/')
  {
    c == '\t' || c == '\U{B}' || c == '\U{C}' || c == '\U{FEFF}'
    || c == ' ' || c == '\U{A0}' || c == '\U{1680}' || '\U{2000}' <= c <= '\U{200A}'
    || c == '\U{202F}' || c == '\U{205F}' || c == '\U{3000}'
    || c == '\n' || c == '\r' || c == '\U{2028}' || c == '\U{2029}'
  }

  /** Lower-casing neither makes nor removes white space. */
  lemma LowerKeepsSpace(c: char)
    ensures IsSpace(LowerChar(c)) <==> IsSpace(c)
  {
    if 'A' <= c <= 'Z' {
      assert 'a' <= LowerChar(c) <= 'z';
    }
  }

  /** Removes leading white space. */
  function TrimStart(s: string): (r: string)
    ensures |r| <= |s| && r == s[|s| - |r|..]
    ensures r == [] || !IsSpace(r[0])
    ensures forall k :: 0 <= k < |s| - |r| ==> IsSpace(s[k])
  {
    if |s| > 0 && IsSpace(s[0]) then TrimStart(s[1..]) else s
  }

  /** Removes trailing white space. */
  function TrimEnd(s: string): (r: string)
    ensures |r| <= |s| && r == s[..|r|]
    ensures r == [] || !IsSpace(r[|r| - 1])
    ensures forall k :: |r| <= k < |s| ==> IsSpace(s[k])
  {
    if |s| > 0 && IsSpace(s[|s| - 1]) then TrimEnd(s[..|s| - 1]) else s
  }

  /** r stands at offset i of s, with only white space before and after it. */
  predicate PaddedAt(s: string, r: string, i: int) {
    0 <= i <= |s| - |r| && r == s[i..i + |r|]
    && (forall k :: 0 <= k < i ==> IsSpace(s[k]))
    && (forall k :: i + |r| <= k < |s| ==> IsSpace(s[k]))
  }

  /** Cutting white space off the front and then off the back leaves a
      slice padded only by white space. */
  lemma PadCompose(s: string, left: string, r: string)
    requires |left| <= |s| && left == s[|s| - |left|..]
    requires forall k :: 0 <= k < |s| - |left| ==> IsSpace(s[k])
    requires |r| <= |left| && r == left[..|r|]
    requires forall k :: |r| <= k < |left| ==> IsSpace(left[k])
    ensures PaddedAt(s, r, |s| - |left|)
  {
    var i := |s| - |left|;
    assert r == s[i..i + |r|];
    forall k | i + |r| <= k < |s| ensures IsSpace(s[k]) {
      assert s[k] == left[k - i];
    }
  }

  /** JavaScript trim: a contiguous slice of s that neither starts nor ends
      with white space, everything cut off around it being white space. */
  function Trim(s: string): (r: string)
    ensures r == [] || (!IsSpace(r[0]) && !IsSpace(r[|r| - 1]))
    ensures exists i :: PaddedAt(s, r, i)
  {
    var left := TrimStart(s);
    var r := TrimEnd(left);
    PadCompose(s, left, r);
    assert r == [] || r[0] == left[0];
    r
  }

  /** A string made only of white space trims to the empty string. */
  lemma {:induction false} TrimBlank(s: string)
    requires forall k :: 0 <= k < |s| ==> IsSpace(s[k])
    ensures Trim(s) == []
  {
    if |s| > 0 {
      assert TrimStart(s) == TrimStart(s[1..]);
      TrimBlank(s[1..]);
    }
  }

  /** A string trims to the empty string exactly when it is all white
      space. */
  lemma BlankIffTrimmedEmpty(s: string)
    ensures Trim(s) == [] <==> forall k :: 0 <= k < |s| ==> IsSpace(s[k])
  {
    if forall k :: 0 <= k < |s| ==> IsSpace(s[k]) {
      TrimBlank(s);
    }
    var i :| PaddedAt(s, Trim(s), i);
  }

  /** Lower-casing keeps a slice in place and keeps the white space
      around it white space. */
  lemma LowerPadded(s: string, r: string, i: int)
    requires PaddedAt(s, r, i)
    ensures PaddedAt(Lower(s), Lower(r), i)
  {
    var ls := Lower(s);
    forall j | 0 <= j < |r| ensures ls[i + j] == Lower(r)[j] {
      assert s[i + j] == r[j];
    }
    assert ls[i..i + |r|] == Lower(r);
    forall k | 0 <= k < |s| && (k < i || i + |r| <= k) ensures IsSpace(ls[k]) {
      LowerKeepsSpace(s[k]);
    }
  }

  /** Trimming and then lower-casing gives a slice of the lower-cased
      string with only white space around it. */
  lemma LowerTrimPadded(s: string)
    ensures exists i :: PaddedAt(Lower(s), Lower(Trim(s)), i)
  {
    var i :| PaddedAt(s, Trim(s), i);
    LowerPadded(s, Trim(s), i);
  }

  predicate StartsWith(s: string, prefix: string) {
    |prefix| <= |s| && s[..|prefix|] == prefix
  }

  /** JavaScript s.includes(q): q occurs in s as a contiguous substring. */
  predicate Includes(s: string, q: string)
    ensures Includes(s, q) ==> |q| <= |s|
    ensures StartsWith(s, q) ==> Includes(s, q)
    decreases |s|
  {
    StartsWith(s, q) || (|s| > 0 && Includes(s[1..], q))
  }

  predicate OccursAt(s: string, q: string, i: int) {
    0 <= i <= |s| - |q| && s[i..i + |q|] == q
  }

  /** Includes means "occurs at some position". */
  lemma {:induction false} IncludesAt(s: string, q: string)
    ensures Includes(s, q) <==> exists i :: OccursAt(s, q, i)
  {
    if StartsWith(s, q) {
      assert OccursAt(s, q, 0);
    } else if |s| > 0 {
      IncludesAt(s[1..], q);
      if Includes(s[1..], q) {
        var i :| OccursAt(s[1..], q, i);
        assert s[i + 1..i + 1 + |q|] == s[1..][i..i + |q|];
        assert OccursAt(s, q, i + 1);
      }
      if i :| OccursAt(s, q, i) {
        assert i > 0;
        assert s[1..][i - 1..i - 1 + |q|] == s[i..i + |q|];
        assert OccursAt(s[1..], q, i - 1);
      }
    }
  }

  function DigitChar(d: nat): (c: char)
    requires d < 10
    ensures '0' <= c <= '9'
  {
    ('0' as int + d) as char
  }

  /** The number a string of decimal digits denotes, most significant digit
      first. */
  function DecimalValue(r: string): nat
    decreases |r|
  {
    if |r| == 0 then 0
    else DecimalValue(r[..|r| - 1]) * 10 + (if '0' <= r[|r| - 1] <= '9' then r[|r| - 1] as int - '0' as int else 0)
  }

  /** String(n) for a natural number: its decimal digits, without leading
      zeros. */
  function NatToString(n: nat): (r: string)
    ensures |r| >= 1
    ensures forall k :: 0 <= k < |r| ==> '0' <= r[k] <= '9'
    ensures DecimalValue(r) == n
    ensures r[0] == '0' ==> n == 0 && |r| == 1
    decreases n
  {
    if n < 10 then [DigitChar(n)]
    else
      var head := NatToString(n / 10);
      var r := head + [DigitChar(n % 10)];
      assert r[..|r| - 1] == head;
      r
  }

  /** String(n) for an integer n: an optional minus sign and the decimal
      digits. */
  function IntToString(n: int): (r: string)
    ensures |r| >= 1
    ensures (r[0] == '-') <==> n < 0
    ensures n < 0 ==> r[1..] == NatToString(-n) && DecimalValue(r[1..]) == -n
    ensures n >= 0 ==> DecimalValue(r) == n && forall k :: 0 <= k < |r| ==> '0' <= r[k] <= '9'
  {
    if n < 0 then "-" + NatToString(-n) else NatToString(n)
  }
}
