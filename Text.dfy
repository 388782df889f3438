/** String primitives with the meaning JavaScript gives them where the alarm
    clock uses them: `includes`, `replace` with a string or a global literal
    pattern, `trim`, `parseInt` of decimal digits, `String(n).padStart`. */
module Text {

  datatype Option<T> = None | Some(value: T)

  /** `\d` of a JavaScript regular expression without the `u` flag: ASCII digits only. */
  predicate IsDigit(c: char) { '0' <= c <= '9' }

  /** JavaScript WhiteSpace and LineTerminator: what `\s` matches and `trim()` removes. */
  predicate IsSpace(c: char) {
    c == ' ' || c == '\t' || c == '\n' || c == '\r' || c == '\U{000B}' || c == '\U{000C}'
    || c == '\U{00A0}' || c == '\U{1680}' || ('\U{2000}' <= c <= '\U{200A}')
    || c == '\U{2028}' || c == '\U{2029}' || c == '\U{202F}' || c == '\U{205F}'
    || c == '\U{3000}' || c == '\U{FEFF}'
  }

  predicate AllDigits(s: string) { forall i :: 0 <= i < |s| ==> IsDigit(s[i]) }

  predicate NoDigits(s: string) { forall i :: 0 <= i < |s| ==> !IsDigit(s[i]) }

  /** The value of a decimal digit; any other character, which the model never reads, counts as zero. */
  function DigitValue(c: char): (r: nat)
    ensures r < 10
  {
    if IsDigit(c) then (c as int) - ('0' as int) else 0
  }

  function DigitChar(d: nat): (c: char)
    requires d < 10
    ensures IsDigit(c) && DigitValue(c) == d
  {
    ('0' as int + d) as char
  }

  /** `parseInt(s, 10)` of a string made of decimal digits only. */
  function Value(s: string): nat
  {
    if s == [] then 0 else Value(s[..|s| - 1]) * 10 + DigitValue(s[|s| - 1])
  }

  /** Equal digit strings have equal values. */
  lemma SameValue(a: string, b: string)
    requires a == b && AllDigits(b)
    ensures AllDigits(a) && Value(a) == Value(b)
  {
  }

  /** `String(n)` for a non-negative integer: its decimal digits, no leading zero. */
  function NatToString(n: nat): (r: string)
    ensures AllDigits(r) && Value(r) == n
    ensures 1 <= |r| && (n < 10 ==> |r| == 1) && (10 <= n < 100 ==> |r| == 2) && (n < 10000 ==> |r| <= 4)
    ensures |r| > 1 ==> r[0] != '0'
  {
    if n < 10 then [DigitChar(n)]
    else
      var r := NatToString(n / 10) + [DigitChar(n % 10)];
      assert r[..|r| - 1] == NatToString(n / 10);
      r
  }

  /** `String(i)` for any integer. */
  function IntToString(i: int): string
  {
    if i < 0 then "-" + NatToString(-i) else NatToString(i)
  }

  function Zeros(k: nat): (r: string)
    ensures |r| == k && forall i :: 0 <= i < k ==> r[i] == '0'
  {
    if k == 0 then [] else Zeros(k - 1) + "0"
  }

  /** Leading zeros do not change the value of a digit string. */
  lemma {:induction false} ValueLeadingZeros(k: nat, s: string)
    requires AllDigits(s)
    ensures AllDigits(Zeros(k) + s) && Value(Zeros(k) + s) == Value(s)
  {
    if s == [] {
      ValueOfZeros(k);
      assert Zeros(k) + s == Zeros(k);
    } else {
      var t := Zeros(k) + s;
      assert t[..|t| - 1] == Zeros(k) + s[..|s| - 1];
      ValueLeadingZeros(k, s[..|s| - 1]);
    }
  }

  lemma {:induction false} ValueOfZeros(k: nat)
    ensures AllDigits(Zeros(k)) && Value(Zeros(k)) == 0
  {
    if k > 0 {
      assert Zeros(k)[..k - 1] == Zeros(k - 1);
      ValueOfZeros(k - 1);
    }
  }

  /** `String(n).padStart(width, '0')`: at least `width` digits, the value unchanged. */
  function ZeroFill(n: nat, width: nat): (r: string)
    ensures AllDigits(r) && Value(r) == n
    ensures |r| == if |NatToString(n)| >= width then |NatToString(n)| else width
  {
    var d := NatToString(n);
    if |d| >= width then d
    else
      ValueLeadingZeros(width - |d|, d);
      Zeros(width - |d|) + d
  }

  /** A value written with at most two digits is below one hundred. */
  lemma ValueOfTwoDigits(s: string)
    requires |s| <= 2
    ensures Value(s) < 100
  {
    if |s| == 2 {
      assert s[..1][..0] == [];
    }
  }

  /** Appending leaves a slice of the front unchanged. */
  lemma SliceKeep<T>(x: seq<T>, r: seq<T>, i: nat, j: nat)
    requires i <= j <= |x|
    ensures (x + r)[i..j] == x[i..j]
  {
  }

  /** The appended part is the slice after the front. */
  lemma SliceLast<T>(x: seq<T>, y: seq<T>)
    ensures (x + y)[|x|..|x| + |y|] == y
  {
  }

  /** A non-empty front is its first element followed by the rest. */
  lemma ConsAppend<T>(x: seq<T>, y: seq<T>)
    requires x != []
    ensures [x[0]] + (x[1..] + y) == x + y
  {
    assert [x[0]] + x[1..] == x;
  }

  lemma Assoc<T>(a: seq<T>, b: seq<T>, c: seq<T>)
    ensures a + b + c == a + (b + c)
  {
  }

  // ---------------------------------------------------------------- search

  predicate OccursAt(s: string, pat: string, i: int)
  {
    0 <= i && i + |pat| <= |s| && s[i..i + |pat|] == pat
  }

  /** The first position at or after `from` where `pat` occurs. */
  function IndexFrom(s: string, pat: string, from: nat): (r: Option<nat>)
    decreases |s| - from
    ensures r.Some? ==> from <= r.value && OccursAt(s, pat, r.value)
    ensures forall j :: from <= j && (r.None? || j < r.value) ==> !OccursAt(s, pat, j)
  {
    if from + |pat| > |s| then None
    else if s[from..from + |pat|] == pat then Some(from)
    else IndexFrom(s, pat, from + 1)
  }

  /** `s.indexOf(pat)`, as an option. */
  function IndexOf(s: string, pat: string): Option<nat>
  {
    IndexFrom(s, pat, 0)
  }

  /** `indexOf` finds the first occurrence, and nothing when there is none. */
  lemma IndexOfFirst(s: string, pat: string)
    ensures (forall i :: !OccursAt(s, pat, i)) ==> IndexOf(s, pat) == None
    ensures forall i :: OccursAt(s, pat, i) && (forall j :: 0 <= j < i ==> !OccursAt(s, pat, j))
                        ==> IndexOf(s, pat) == Some(i)
  {
    var r := IndexFrom(s, pat, 0);
    forall i | OccursAt(s, pat, i) && (forall j :: 0 <= j < i ==> !OccursAt(s, pat, j))
      ensures r == Some(i)
    {
      assert r.Some? ==> r.value >= i;
    }
  }

  /** `s.includes(pat)`. */
  predicate Contains(s: string, pat: string)
    ensures Contains(s, pat) <==> exists i :: OccursAt(s, pat, i)
  {
    IndexOf(s, pat).Some?
  }

  /** A string holds a pattern only if it holds every character of the pattern. */
  lemma ContainsChar(s: string, pat: string, k: nat)
    requires k < |pat|
    ensures Contains(s, pat) ==> pat[k] in s
  {
    if Contains(s, pat) {
      var i :| OccursAt(s, pat, i);
      assert s[i + k] == s[i..i + |pat|][k];
    }
  }

  /** A pattern occurring at the very start is found there. */
  lemma IndexOfAtStart(s: string, pat: string)
    requires OccursAt(s, pat, 0)
    ensures IndexOf(s, pat) == Some(0)
  {
  }

  /** `s.replace(pat, rep)` with a string pattern: only the first occurrence is replaced. */
  function ReplaceFirst(s: string, pat: string, rep: string): (r: string)
    ensures (forall i :: !OccursAt(s, pat, i)) ==> r == s
    ensures forall i :: OccursAt(s, pat, i) && (forall j :: 0 <= j < i ==> !OccursAt(s, pat, j))
                        ==> r == s[..i] + rep + s[i + |pat|..]
  {
    IndexOfFirst(s, pat);
    match IndexOf(s, pat)
    case None => s
    case Some(i) => s[..i] + rep + s[i + |pat|..]
  }

  /** Removing a leading part leaves the rest. */
  lemma ReplaceFirstAtStart(x: string, y: string)
    ensures ReplaceFirst(x + y, x, "") == y
  {
    assert (x + y)[0..|x|] == x;
    assert OccursAt(x + y, x, 0);
    assert (x + y)[..0] + "" + (x + y)[|x|..] == y;
  }

  /** `s.replace(/pat/g, rep)` for a literal pattern: occurrences are found from
      left to right and do not overlap. */
  function ReplaceAll(s: string, pat: string, rep: string): string
    requires pat != []
  {
    if |s| < |pat| then s
    else if s[..|pat|] == pat then rep + ReplaceAll(s[|pat|..], pat, rep)
    else [s[0]] + ReplaceAll(s[1..], pat, rep)
  }

  /** A prefix that holds no first character of the pattern passes through unchanged. */
  lemma {:induction false} ReplaceAllSkip(x: string, y: string, pat: string, rep: string)
    requires pat != [] && pat[0] !in x
    ensures ReplaceAll(x + y, pat, rep) == x + ReplaceAll(y, pat, rep)
  {
    if x != [] {
      var s := x + y;
      assert s[0] == x[0];
      assert s[1..] == x[1..] + y;
      if |s| >= |pat| {
        assert s[..|pat|][0] == x[0];
        ReplaceAllSkip(x[1..], y, pat, rep);
      } else {
        assert |y| < |pat|;
      }
    } else {
      assert x + y == y;
    }
  }

  /** A string without the pattern's first character is left as it is. */
  lemma ReplaceAllAbsent(s: string, pat: string, rep: string)
    requires pat != [] && pat[0] !in s
    ensures ReplaceAll(s, pat, rep) == s
  {
    ReplaceAllSkip(s, [], pat, rep);
    assert s + [] == s;
  }

  /** An occurrence at the start is replaced and scanning resumes after it. */
  lemma ReplaceAllHead(pat: string, y: string, rep: string)
    requires pat != []
    ensures ReplaceAll(pat + y, pat, rep) == rep + ReplaceAll(y, pat, rep)
  {
    var s := pat + y;
    assert s[..|pat|] == pat && s[|pat|..] == y;
  }

  /** An occurrence at the start is replaced, and a following part without the
      pattern's first character passes through. */
  lemma ReplaceAllHeadSkip(pat: string, x: string, y: string, rep: string)
    requires pat != [] && pat[0] !in x
    ensures ReplaceAll(pat + x + y, pat, rep) == rep + x + ReplaceAll(y, pat, rep)
  {
    Assoc(pat, x, y);
    ReplaceAllHead(pat, x + y, rep);
    ReplaceAllSkip(x, y, pat, rep);
    Assoc(rep, x, ReplaceAll(y, pat, rep));
  }

  /** A first character followed by a part that cannot continue the pattern,
      and holds no first character of it, passes through. */
  lemma ReplaceAllFirstCharSkip(c: char, x: string, y: string, pat: string, rep: string)
    requires |pat| >= 2 && x != [] && x[0] != pat[1] && pat[0] !in x
    ensures ReplaceAll([c] + x + y, pat, rep) == [c] + x + ReplaceAll(y, pat, rep)
  {
    Assoc([c], x, y);
    ReplaceAllFirstChar(c, x + y, pat, rep);
    ReplaceAllSkip(x, y, pat, rep);
    Assoc([c], x, ReplaceAll(y, pat, rep));
  }

  /** A string in which the pattern does not occur is left as it is. */
  lemma {:induction false} ReplaceAllNone(s: string, pat: string, rep: string)
    requires pat != [] && forall i :: !OccursAt(s, pat, i)
    ensures ReplaceAll(s, pat, rep) == s
  {
    if |s| >= |pat| {
      assert !OccursAt(s, pat, 0);
      forall i | OccursAt(s[1..], pat, i) ensures OccursAt(s, pat, i + 1) {
        assert s[1..][i..i + |pat|] == s[i + 1..i + 1 + |pat|];
      }
      ReplaceAllNone(s[1..], pat, rep);
    }
  }

  /** A first character that does not start an occurrence is passed over. */
  lemma ReplaceAllFirstChar(c: char, y: string, pat: string, rep: string)
    requires |pat| >= 2 && (y == [] || y[0] != pat[1])
    ensures ReplaceAll([c] + y, pat, rep) == [c] + ReplaceAll(y, pat, rep)
  {
    var s := [c] + y;
    if |s| >= |pat| {
      assert s[..|pat|][1] == y[0];
      assert s[1..] == y;
    }
  }

  /** For a two-character pattern, replacing in a concatenation replaces in each
      part, unless an occurrence straddles the seam. */
  lemma {:induction false} ReplaceAllConcat(a: string, b: string, pat: string, rep: string)
    requires |pat| == 2
    requires !(a != [] && b != [] && a[|a| - 1] == pat[0] && b[0] == pat[1])
    ensures ReplaceAll(a + b, pat, rep) == ReplaceAll(a, pat, rep) + ReplaceAll(b, pat, rep)
    decreases |a|
  {
    var s := a + b;
    if a == [] {
      assert s == b;
    } else if |s| < 2 {
      assert b == [] && s == a;
    } else if s[..2] == pat {
      if |a| >= 2 {
        assert a[..2] == s[..2];
        assert s[2..] == a[2..] + b;
        ReplaceAllConcat(a[2..], b, pat, rep);
      } else {
        assert false;
      }
    } else {
      assert s[1..] == a[1..] + b;
      if |a| >= 2 {
        assert a[..2] == s[..2];
        ReplaceAllConcat(a[1..], b, pat, rep);
      } else {
        assert a[1..] == [];
        assert s[1..] == b;
      }
    }
  }

  // ---------------------------------------------------------------- trim

  /** Removes the leading whitespace, and only that. */
  function TrimStart(s: string): (r: string)
    ensures |r| <= |s| && r == s[|s| - |r|..]
    ensures r == [] || !IsSpace(r[0])
    ensures forall i :: 0 <= i < |s| - |r| ==> IsSpace(s[i])
  {
    if s != [] && IsSpace(s[0]) then TrimStart(s[1..]) else s
  }

  /** Removes the trailing whitespace, and only that. */
  function TrimEnd(s: string): (r: string)
    ensures |r| <= |s| && r == s[..|r|]
    ensures r == [] || !IsSpace(r[|r| - 1])
    ensures forall i :: |r| <= i < |s| ==> IsSpace(s[i])
  {
    if s != [] && IsSpace(s[|s| - 1]) then TrimEnd(s[..|s| - 1]) else s
  }

  /** `s.trim()`. */
  function Trim(s: string): string
  {
    TrimEnd(TrimStart(s))
  }

  /** No digit is whitespace. */
  lemma DigitNotSpace(c: char)
    requires IsDigit(c)
    ensures !IsSpace(c)
  {
  }

  /** A string that starts and ends with a non-space character is its own trim. */
  lemma TrimKeeps(s: string)
    requires s != [] && !IsSpace(s[0]) && !IsSpace(s[|s| - 1])
    ensures Trim(s) == s
  {
  }

  /** Trailing whitespace is removed from the second part only when the first
      part ends with a non-space character. */
  lemma {:induction false} TrimEndConcat(x: string, y: string)
    requires x != [] && !IsSpace(x[|x| - 1])
    ensures TrimEnd(x + y) == x + TrimEnd(y)
  {
    if y != [] && IsSpace(y[|y| - 1]) {
      assert (x + y)[..|x + y| - 1] == x + y[..|y| - 1];
      TrimEndConcat(x, y[..|y| - 1]);
    } else if y == [] {
      assert x + y == x;
    }
  }

  /** A text that starts with a part bounded by non-space characters keeps that part when trimmed. */
  lemma TrimPrefix(x: string, y: string)
    requires x != [] && !IsSpace(x[0]) && !IsSpace(x[|x| - 1])
    ensures Trim(x + y) == x + TrimEnd(y)
  {
    assert (x + y)[0] == x[0];
    TrimEndConcat(x, y);
  }

  /** Trimming keeps only characters of the input. */
  lemma TrimSubset(s: string)
    ensures forall c :: c in Trim(s) ==> c in s
  {
    var t := TrimStart(s);
    assert forall c :: c in TrimEnd(t) ==> c in t;
    assert forall c :: c in t ==> c in s;
  }
}
