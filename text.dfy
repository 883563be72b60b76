/** The string operations the normalizer applies: ASCII-level `str.upper` and `str.title`,
    `split(", ")[-1]` and `rsplit(" ", 2)`. */
module Text {

  predicate IsLowerLetter(c: char) { 'a' <= c <= 'z' }

  predicate IsUpperLetter(c: char) { 'A' <= c <= 'Z' }

  /** A cased character in the sense of `str.title`; only ASCII letters are recognised. */
  predicate IsLetter(c: char) { IsLowerLetter(c) || IsUpperLetter(c) }

  function UpperChar(c: char): (u: char)
    ensures IsLetter(u) == IsLetter(c) && !IsLowerLetter(u)
  {
    if IsLowerLetter(c) then (c as int - 32) as char else c
  }

  function LowerChar(c: char): (l: char)
    ensures IsLetter(l) == IsLetter(c) && !IsUpperLetter(l)
  {
    if IsUpperLetter(c) then (c as int + 32) as char else c
  }

  /** `str.upper`: no lower-case letter is left, and each character is the one it replaces up to
      case, so every lower-case letter becomes upper case and nothing else changes. */
  function Upper(s: string): (r: string)
    ensures |r| == |s|
    ensures forall i :: 0 <= i < |s| ==> !IsLowerLetter(r[i]) && LowerChar(r[i]) == LowerChar(s[i])
  {
    seq(|s|, i requires 0 <= i < |s| => UpperChar(s[i]))
  }

  lemma UpperIdempotent(s: string)
    ensures Upper(Upper(s)) == Upper(s)
  {
  }

  /** `str.title`, continuing after a character that was (`afterLetter`) or was not a letter:
      a letter that follows a letter is lower-cased, any other letter is upper-cased. */
  function TitleFrom(s: string, afterLetter: bool): (r: string)
    ensures |r| == |s|
    ensures forall i :: 0 <= i < |s| ==> LowerChar(r[i]) == LowerChar(s[i])
    ensures forall i :: 0 <= i < |s| ==>
      if (if i == 0 then afterLetter else IsLetter(s[i - 1])) then !IsUpperLetter(r[i]) else !IsLowerLetter(r[i])
    decreases |s|
  {
    if s == [] then []
    else
      var c := s[0];
      var t := if !IsLetter(c) then c else if afterLetter then LowerChar(c) else UpperChar(c);
      [t] + TitleFrom(s[1..], IsLetter(c))
  }

  /** `str.title`: each character is the one it replaces up to case; the first letter of every
      run of letters is not lower case and every other letter is not upper case. */
  function Title(s: string): (r: string)
    ensures |r| == |s|
    ensures forall i :: 0 <= i < |s| ==> LowerChar(r[i]) == LowerChar(s[i])
    ensures forall i :: 0 <= i < |s| && (i == 0 || !IsLetter(s[i - 1])) ==> !IsLowerLetter(r[i])
    ensures forall i :: 0 < i < |s| && IsLetter(s[i - 1]) ==> !IsUpperLetter(r[i])
  {
    TitleFrom(s, false)
  }

  /** The filler "Unknown" is already title-cased. */
  lemma TitleUnknown()
    ensures Title("Unknown") == "Unknown"
  {
    assert Title("Unknown") == ['U'] + TitleFrom("nknown", true);
  }

  /** Title-casing again changes nothing: a title-cased string is a fixed point. */
  lemma {:induction false} TitleFromIdempotent(s: string, afterLetter: bool)
    ensures TitleFrom(TitleFrom(s, afterLetter), afterLetter) == TitleFrom(s, afterLetter)
    decreases |s|
  {
    if s != [] {
      var r := TitleFrom(s, afterLetter);
      assert r[1..] == TitleFrom(s[1..], IsLetter(s[0]));
      TitleFromIdempotent(s[1..], IsLetter(s[0]));
    }
  }

  lemma TitleIdempotent(s: string)
    ensures Title(Title(s)) == Title(s)
  {
    TitleFromIdempotent(s, false);
  }

  /** `s` contains the separator ", " somewhere. */
  predicate HasSeparator(s: string)
  {
    exists i :: 0 <= i < |s| && SeparatorAt(s, i)
  }

  predicate SeparatorAt(s: string, i: int)
  {
    0 <= i < |s| - 1 && s[i] == ',' && s[i + 1] == ' '
  }

  /** `t` is the last `|t|` characters of `s`. */
  predicate IsSuffix(t: string, s: string)
  {
    |t| <= |s| && forall k :: 0 <= k < |t| ==> t[k] == s[|s| - |t| + k]
  }

  /** `s.split(", ")[-1]`: the part after the last ", " (all of `s` when there is none). */
  function LastComponent(s: string): (t: string)
    ensures IsSuffix(t, s)
    ensures !HasSeparator(t)
    ensures |t| == |s| || (|t| + 2 <= |s| && s[|s| - |t| - 2] == ',' && s[|s| - |t| - 1] == ' ')
    decreases |s|
  {
    if s == [] then []
    else if |s| >= 2 && s[|s| - 2] == ',' && s[|s| - 1] == ' ' then []
    else
      var prev := s[..|s| - 1];
      var init := LastComponent(prev);
      var t := init + [s[|s| - 1]];
      assert !HasSeparator(t) by {
        if HasSeparator(t) {
          var i :| 0 <= i < |t| && SeparatorAt(t, i);
          if i + 1 < |init| {
            assert SeparatorAt(init, i);
          }
        }
      }
      assert IsSuffix(t, s) by {
        forall k | 0 <= k < |t| ensures t[k] == s[|s| - |t| + k] {
          if k < |init| { assert init[k] == prev[|prev| - |init| + k]; }
        }
      }
      assert |init| < |prev| ==> s[|s| - |t| - 2] == prev[|prev| - |init| - 2];
      t
  }

  /** A component without ", " that follows the last ", " is what `LastComponent` returns. */
  lemma LastComponentAfterSeparator(prefix: string, tail: string)
    requires !HasSeparator(tail)
    ensures LastComponent(prefix + ", " + tail) == tail
  {
    var s := prefix + ", " + tail;
    var n := |prefix| + 2;
    assert |s| == n + |tail| && s[n - 2] == ',' && s[n - 1] == ' ';
    assert s[n..] == tail;
    LastComponentAt(s, n);
  }

  /** The same on one string: what follows a ", " at `n - 2` and holds no separator is the last
      component. */
  lemma LastComponentAt(s: string, n: nat)
    requires 2 <= n <= |s| && s[n - 2] == ',' && s[n - 1] == ' ' && !HasSeparator(s[n..])
    ensures LastComponent(s) == s[n..]
  {
    SuffixFrom(s, n);
    SeparatedSuffixUnique(s, LastComponent(s), s[n..]);
  }

  /** Two separator-free suffixes that each start the string or follow a ", " are equal. */
  lemma SeparatedSuffixUnique(s: string, t: string, u: string)
    requires IsSuffix(t, s) && !HasSeparator(t)
    requires |t| == |s| || (|t| + 2 <= |s| && s[|s| - |t| - 2] == ',' && s[|s| - |t| - 1] == ' ')
    requires IsSuffix(u, s) && !HasSeparator(u)
    requires |u| + 2 <= |s| && s[|s| - |u| - 2] == ',' && s[|s| - |u| - 1] == ' '
    ensures t == u
  {
    // A longer separator-free suffix would contain the ", " that precedes the shorter one.
    if |t| > |u| {
      assert SeparatorAt(t, |t| - |u| - 2);
    } else if |t| < |u| {
      assert SeparatorAt(u, |u| - |t| - 2);
    }
    assert forall k :: 0 <= k < |t| ==> t[k] == u[k];
  }

  /** Position of the last space in `t`, or -1 when `t` has none. */
  function LastSpace(t: string): (r: int)
    ensures -1 <= r < |t|
    ensures r >= 0 ==> t[r] == ' '
    ensures forall k :: r < k < |t| ==> t[k] != ' '
    decreases |t|
  {
    if t == [] then -1
    else if t[|t| - 1] == ' ' then |t| - 1
    else LastSpace(t[..|t| - 1])
  }

  /** `t.rsplit(" ", 2)`: split at the last two spaces at most. */
  function RSplit2(t: string): (parts: seq<string>)
    ensures 1 <= |parts| <= 3
  {
    var j := LastSpace(t);
    if j < 0 then [t]
    else
      var rest := t[..j];
      var k := LastSpace(rest);
      if k < 0 then [rest, t[j + 1..]] else [rest[..k], rest[k + 1..], t[j + 1..]]
  }

  /** `t` is the first `|t|` characters of `s`. */
  predicate IsPrefix(t: string, s: string)
  {
    |t| <= |s| && forall k :: 0 <= k < |t| ==> t[k] == s[k]
  }

  lemma SuffixFrom(t: string, i: nat)
    requires i <= |t|
    ensures IsSuffix(t[i..], t)
  {
    assert forall k :: 0 <= k < |t| - i ==> t[i..][k] == t[i + k];
  }

  /** The first part of `rsplit` begins the input, the last part ends it and has no space. */
  lemma RSplit2Ends(t: string)
    ensures IsPrefix(RSplit2(t)[0], t)
    ensures IsSuffix(RSplit2(t)[|RSplit2(t)| - 1], t)
    ensures ' ' !in RSplit2(t)[|RSplit2(t)| - 1]
  {
    var parts := RSplit2(t);
    var j := LastSpace(t);
    if j < 0 {
      assert parts == [t];
      SuffixFrom(t, 0);
      assert t[0..] == t;
    } else {
      var k := LastSpace(t[..j]);
      assert parts[|parts| - 1] == t[j + 1..];
      assert parts[0] == if k < 0 then t[..j] else t[..j][..k];
      AfterLastSpace(t, j);
      PrefixOfTake(t, j, k);
    }
  }

  /** What follows the last space ends the string and has no space. */
  lemma AfterLastSpace(t: string, j: nat)
    requires j < |t| && forall k :: j < k < |t| ==> t[k] != ' '
    ensures IsSuffix(t[j + 1..], t) && ' ' !in t[j + 1..]
  {
    SuffixFrom(t, j + 1);
    var last := t[j + 1..];
    assert forall m :: 0 <= m < |last| ==> last[m] == t[j + 1 + m];
  }

  /** The first `j` characters, or the first `k` of those, begin the string. */
  lemma PrefixOfTake(t: string, j: nat, k: int)
    requires j <= |t| && k < j
    ensures IsPrefix(if k < 0 then t[..j] else t[..j][..k], t)
  {
    if k >= 0 {
      assert t[..j][..k] == t[..k];
    }
  }

  /** `" ".join(parts)`. */
  function JoinSpaces(parts: seq<string>): string
    decreases |parts|
  {
    if parts == [] then ""
    else if |parts| == 1 then parts[0]
    else JoinSpaces(parts[..|parts| - 1]) + " " + parts[|parts| - 1]
  }

  /** `rsplit` loses nothing: joining the parts with single spaces gives back the input, only the
      first part may contain spaces, and it does so only when all three parts were produced. */
  lemma RSplit2Parts(t: string)
    ensures JoinSpaces(RSplit2(t)) == t
    ensures forall i :: 1 <= i < |RSplit2(t)| ==> ' ' !in RSplit2(t)[i]
    ensures |RSplit2(t)| < 3 ==> ' ' !in RSplit2(t)[0]
  {
    var parts := RSplit2(t);
    var j := LastSpace(t);
    if j >= 0 {
      var rest := t[..j];
      var k := LastSpace(rest);
      assert t == rest + " " + t[j + 1..];
      if k >= 0 {
        assert rest == rest[..k] + " " + rest[k + 1..];
        assert JoinSpaces(parts[..2]) == rest[..k] + " " + rest[k + 1..];
      }
    }
  }

  /** The last space of `x + " " + y` is the one between them when `y` has none. */
  lemma LastSpaceBefore(x: string, y: string)
    requires ' ' !in y
    ensures LastSpace(x + " " + y) == |x|
    decreases |y|
  {
    var t := x + " " + y;
    if y != [] {
      LastSpaceBefore(x, y[..|y| - 1]);
      assert t[..|t| - 1] == x + " " + y[..|y| - 1];
    }
  }

  /** Splitting "SUBURB STATE POSTCODE" from the right keeps a suburb with spaces in one piece. */
  lemma RSplit2OfThree(a: string, b: string, c: string)
    requires ' ' !in b && ' ' !in c
    ensures RSplit2(a + " " + b + " " + c) == [a, b, c]
  {
    var t := a + " " + b + " " + c;
    var rest := a + " " + b;
    LastSpaceBefore(rest, c);
    assert t[..|rest|] == rest && t[|rest| + 1..] == c;
    LastSpaceBefore(a, b);
    assert rest[..|a|] == a && rest[|a| + 1..] == b;
  }

  /** Splitting "SUBURB POSTCODE" from the right, with a one-word suburb. */
  lemma RSplit2OfTwo(a: string, b: string)
    requires ' ' !in a && ' ' !in b
    ensures RSplit2(a + " " + b) == [a, b]
  {
    var t := a + " " + b;
    LastSpaceBefore(a, b);
    assert t[..|a|] == a && t[|a| + 1..] == b;
    assert LastSpace(a) == -1;
  }
}
