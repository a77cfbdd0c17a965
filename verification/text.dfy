/** Character classes and string operations that the bot takes from Python:
    the `in` test for substrings, `str.strip`, `str.split`, `str.join`, and
    the `\s` and `\d` classes of the `re` module. */
module Text {
  import opened Wrappers

  /** The characters `str.isspace` accepts, which is also the `\s` class of
      a `re` pattern applied to a `str`. */
  predicate IsSpace(c: char) {
    || c == ' '
    || '\t' <= c <= '\r'
    || '\U{1c}' <= c <= '\U{1f}'
    || c == '\U{85}' || c == '\U{a0}' || c == '\U{1680}'
    || '\U{2000}' <= c <= '\U{200a}'
    || c == '\U{2028}' || c == '\U{2029}' || c == '\U{202f}'
    || c == '\U{205f}' || c == '\U{3000}'
  }

  /** The `\d` class, restricted to ASCII digits. */
  predicate IsDigit(c: char) {
    '0' <= c <= '9'
  }

  /** ASCII lower-casing, used for the case-insensitive patterns. */
  function Lower(c: char): (r: char)
    ensures 'A' <= c <= 'Z' ==> 'a' <= r <= 'z'
    ensures !('A' <= c <= 'Z') ==> r == c
  {
    if 'A' <= c <= 'Z' then (c as int + 32) as char else c
  }

  predicate AllSpace(s: string) {
    forall i :: 0 <= i < |s| ==> IsSpace(s[i])
  }

  predicate AllDigits(s: string) {
    forall i :: 0 <= i < |s| ==> IsDigit(s[i])
  }

  /** `p` occurs in `s` starting at index `i`. */
  predicate OccursAt(s: string, p: string, i: int) {
    0 <= i && i + |p| <= |s| && s[i..i + |p|] == p
  }

  lemma OccursAtTail(s: string, p: string)
    requires |s| > 0
    ensures forall i :: 0 <= i ==> (OccursAt(s[1..], p, i) <==> OccursAt(s, p, i + 1))
  {
    forall i | 0 <= i
      ensures OccursAt(s[1..], p, i) <==> OccursAt(s, p, i + 1)
    {
      if 0 <= i && i + |p| <= |s| - 1 {
        assert s[1..][i..i + |p|] == s[i + 1..i + 1 + |p|];
      }
    }
  }

  /** Python's `p in s` for strings, as a left-to-right scan. */
  function Contains(s: string, p: string): (r: bool)
    ensures r <==> exists i :: OccursAt(s, p, i)
    decreases |s|
  {
    if |p| > |s| then
      false
    else if s[..|p|] == p then
      assert OccursAt(s, p, 0);
      true
    else
      OccursAtTail(s, p);
      var r := Contains(s[1..], p);
      assert r ==> exists i :: OccursAt(s, p, i) by {
        if r {
          var i :| OccursAt(s[1..], p, i);
          assert OccursAt(s, p, i + 1);
        }
      }
      assert (exists i :: OccursAt(s, p, i)) ==> r by {
        if exists i :: OccursAt(s, p, i) {
          var i :| OccursAt(s, p, i);
          assert i != 0;
          assert OccursAt(s[1..], p, i - 1);
        }
      }
      r
  }

  /** The index at which the last occurrence of `p` in `s` starts. */
  function LastIndexOf(s: string, p: string): (r: Option<nat>)
    ensures r.None? <==> !exists i :: OccursAt(s, p, i)
    ensures r.Some? ==> OccursAt(s, p, r.value)
    ensures r.Some? ==> forall j :: r.value < j ==> !OccursAt(s, p, j)
    decreases |s|
  {
    if |p| > |s| then
      None
    else if s[|s| - |p|..] == p then
      assert OccursAt(s, p, |s| - |p|);
      Some(|s| - |p|)
    else
      var s' := s[..|s| - 1];
      assert forall i :: OccursAt(s, p, i) ==> OccursAt(s', p, i) by {
        forall i | OccursAt(s, p, i)
          ensures OccursAt(s', p, i)
        {
          assert i + |p| != |s|;
          assert s'[i..i + |p|] == s[i..i + |p|];
        }
      }
      assert forall i :: OccursAt(s', p, i) ==> OccursAt(s, p, i) by {
        forall i | OccursAt(s', p, i)
          ensures OccursAt(s, p, i)
        {
          assert s'[i..i + |p|] == s[i..i + |p|];
        }
      }
      LastIndexOf(s', p)
  }

  /** Removing characters from the front while `drop` holds. */
  function TrimLeft(s: string, drop: char -> bool): (r: string)
    ensures |r| <= |s| && r == s[|s| - |r|..]
    ensures forall i :: 0 <= i < |s| - |r| ==> drop(s[i])
    ensures |r| > 0 ==> !drop(r[0])
    decreases |s|
  {
    if |s| > 0 && drop(s[0]) then
      var r := TrimLeft(s[1..], drop);
      assert s[1..][|s| - 1 - |r|..] == s[|s| - |r|..];
      assert forall i :: 1 <= i < |s| ==> s[1..][i - 1] == s[i];
      r
    else
      s
  }

  /** Removing characters from the back while `drop` holds. */
  function TrimRight(s: string, drop: char -> bool): (r: string)
    ensures |r| <= |s| && r == s[..|r|]
    ensures forall i :: |r| <= i < |s| ==> drop(s[i])
    ensures |r| > 0 ==> !drop(r[|r| - 1])
    decreases |s|
  {
    if |s| > 0 && drop(s[|s| - 1]) then TrimRight(s[..|s| - 1], drop) else s
  }

  /** Python's `str.strip(chars)`: both ends trimmed. */
  function Strip(s: string, drop: char -> bool): (r: string)
    ensures |r| > 0 ==> !drop(r[0]) && !drop(r[|r| - 1])
    ensures |r| == 0 ==> forall i :: 0 <= i < |s| ==> drop(s[i])
  {
    TrimRight(TrimLeft(s, drop), drop)
  }

  /** Stripping keeps every occurrence of a text that neither starts nor
      ends with a droppable character. */
  lemma StripKeeps(s: string, p: string, drop: char -> bool)
    requires |p| > 0 && !drop(p[0]) && !drop(p[|p| - 1])
    requires Contains(s, p)
    ensures Contains(Strip(s, drop), p)
  {
    var i :| OccursAt(s, p, i);
    var j := TrimLeftKeeps(s, p, drop, i);
    TrimRightKeeps(TrimLeft(s, drop), p, drop, j);
  }

  lemma TrimLeftKeeps(s: string, p: string, drop: char -> bool, i: nat) returns (j: nat)
    requires |p| > 0 && !drop(p[0]) && OccursAt(s, p, i)
    ensures OccursAt(TrimLeft(s, drop), p, j)
  {
    assert s[i] == s[i..i + |p|][0];
    var l := TrimLeft(s, drop);
    j := i - (|s| - |l|);
    assert l[j..j + |p|] == s[i..i + |p|];
  }

  lemma TrimRightKeeps(l: string, p: string, drop: char -> bool, j: nat)
    requires |p| > 0 && !drop(p[|p| - 1]) && OccursAt(l, p, j)
    ensures OccursAt(TrimRight(l, drop), p, j)
  {
    assert l[j + |p| - 1] == l[j..j + |p|][|p| - 1];
    var r := TrimRight(l, drop);
    assert r[j..j + |p|] == l[j..j + |p|];
  }

  /** Stripping adds no character. */
  lemma StripFree(s: string, drop: char -> bool, c: char)
    ensures c !in s ==> c !in Strip(s, drop)
  {
    var l := TrimLeft(s, drop);
    assert forall k :: 0 <= k < |l| ==> l[k] == s[|s| - |l| + k];
    var r := TrimRight(l, drop);
    assert forall k :: 0 <= k < |r| ==> r[k] == l[k];
  }

  /** `strip` gives back exactly the part between two droppable runs. */
  lemma {:induction false} StripFrame(x: string, h: string, y: string, drop: char -> bool)
    requires forall i :: 0 <= i < |x| ==> drop(x[i])
    requires forall i :: 0 <= i < |y| ==> drop(y[i])
    requires |h| > 0 && !drop(h[0]) && !drop(h[|h| - 1])
    ensures Strip(x + h + y, drop) == h
  {
    var hy := h + y;
    assert x + h + y == x + hy;
    TrimLeftFrame(x, hy, drop);
    TrimRightFrame(h, y, drop);
    assert Strip(x + h + y, drop) == TrimRight(TrimLeft(x + hy, drop), drop);
  }

  lemma {:induction false} TrimLeftFrame(x: string, rest: string, drop: char -> bool)
    requires forall i :: 0 <= i < |x| ==> drop(x[i])
    requires |rest| > 0 && !drop(rest[0])
    ensures TrimLeft(x + rest, drop) == rest
    decreases |x|
  {
    if |x| > 0 {
      assert (x + rest)[1..] == x[1..] + rest;
      TrimLeftFrame(x[1..], rest, drop);
    }
  }

  lemma {:induction false} TrimRightFrame(h: string, y: string, drop: char -> bool)
    requires forall i :: 0 <= i < |y| ==> drop(y[i])
    requires |h| > 0 && !drop(h[|h| - 1])
    ensures TrimRight(h + y, drop) == h
    decreases |y|
  {
    if |y| > 0 {
      assert (h + y)[..|h + y| - 1] == h + y[..|y| - 1];
      TrimRightFrame(h, y[..|y| - 1], drop);
    }
  }

  /** Python's `re.sub(r'\s+', '', s)`: every whitespace character deleted. */
  function RemoveSpace(s: string): (r: string)
    ensures |r| <= |s|
    ensures forall i :: 0 <= i < |r| ==> !IsSpace(r[i])
    decreases |s|
  {
    if |s| == 0 then ""
    else if IsSpace(s[0]) then RemoveSpace(s[1..])
    else [s[0]] + RemoveSpace(s[1..])
  }

  lemma {:induction false} RemoveSpaceAppend(a: string, b: string)
    ensures RemoveSpace(a + b) == RemoveSpace(a) + RemoveSpace(b)
    decreases |a|
  {
    if |a| == 0 {
      assert a + b == b;
    } else {
      assert (a + b)[1..] == a[1..] + b;
      RemoveSpaceAppend(a[1..], b);
    }
  }

  lemma {:induction false} RemoveSpaceOfSpaces(w: string)
    requires AllSpace(w)
    ensures RemoveSpace(w) == ""
    decreases |w|
  {
    if |w| > 0 {
      RemoveSpaceOfSpaces(w[1..]);
    }
  }

  lemma {:induction false} RemoveSpaceKeepsSpaceFree(s: string)
    requires forall i :: 0 <= i < |s| ==> !IsSpace(s[i])
    ensures RemoveSpace(s) == s
    decreases |s|
  {
    if |s| > 0 {
      RemoveSpaceKeepsSpaceFree(s[1..]);
    }
  }

  /** Python's `s.split(sep)`: leftmost, non-overlapping occurrences of
      `sep` cut `s` into the pieces between them. */
  function Split(s: string, sep: string): (parts: seq<string>)
    requires |sep| > 0
    ensures |parts| > 0
    decreases |s|
  {
    if |s| < |sep| then
      [s]
    else if s[..|sep|] == sep then
      [""] + Split(s[|sep|..], sep)
    else
      var rest := Split(s[1..], sep);
      [[s[0]] + rest[0]] + rest[1..]
  }

  /** Python's `sep.join(parts)`. */
  function Join(parts: seq<string>, sep: string): string
    decreases |parts|
  {
    if |parts| == 0 then ""
    else if |parts| == 1 then parts[0]
    else parts[0] + sep + Join(parts[1..], sep)
  }

  /** A character absent from the parts and the separator is absent from
      their join. */
  lemma {:induction false} JoinFree(parts: seq<string>, sep: string, c: char)
    ensures c !in sep && (forall k :: 0 <= k < |parts| ==> c !in parts[k]) ==> c !in Join(parts, sep)
    decreases |parts|
  {
    if |parts| > 1 {
      JoinFree(parts[1..], sep, c);
      assert forall k :: 1 <= k < |parts| ==> parts[1..][k - 1] == parts[k];
    }
  }

  /** Joining the pieces of a split with the same separator gives the text back. */
  lemma {:induction false} JoinSplit(s: string, sep: string)
    requires |sep| > 0
    ensures Join(Split(s, sep), sep) == s
    decreases |s|
  {
    if |s| < |sep| {
    } else if s[..|sep|] == sep {
      JoinSplit(s[|sep|..], sep);
      var rest := Split(s[|sep|..], sep);
      assert Split(s, sep) == [""] + rest;
      assert ([""] + rest)[1..] == rest;
      assert s == "" + sep + s[|sep|..];
    } else {
      JoinSplit(s[1..], sep);
      var rest := Split(s[1..], sep);
      var parts := Split(s, sep);
      assert parts == [[s[0]] + rest[0]] + rest[1..];
      if |rest| == 1 {
        assert parts == [[s[0]] + rest[0]];
        assert s == [s[0]] + s[1..];
      } else {
        assert parts[1..] == rest[1..];
        assert Join(rest, sep) == rest[0] + sep + Join(rest[1..], sep);
        assert s == [s[0]] + s[1..];
      }
    }
  }

  /** The first piece of a split is a prefix of the text. */
  lemma {:induction false} SplitFirstIsPrefix(s: string, sep: string)
    requires |sep| > 0
    ensures |Split(s, sep)[0]| <= |s|
    ensures Split(s, sep)[0] == s[..|Split(s, sep)[0]|]
    decreases |s|
  {
    if |s| < |sep| {
    } else if s[..|sep|] == sep {
    } else {
      SplitFirstIsPrefix(s[1..], sep);
      var first := Split(s[1..], sep)[0];
      assert Split(s, sep)[0] == [s[0]] + first;
      ConsPrefix(s[0], first, s[1..]);
      assert [s[0]] + s[1..] == s;
    }
  }

  /** A prefix stays a prefix when one character is put in front of both. */
  lemma ConsPrefix(c: char, t: string, u: string)
    requires |t| <= |u| && t == u[..|t|]
    ensures [c] + t == ([c] + u)[..1 + |t|]
  {
  }

  /** No piece of a split contains the separator. */
  lemma {:induction false} SplitPiecesFree(s: string, sep: string)
    requires |sep| > 0
    ensures forall k :: 0 <= k < |Split(s, sep)| ==> !Contains(Split(s, sep)[k], sep)
    decreases |s|
  {
    var parts := Split(s, sep);
    if |s| < |sep| {
      assert forall i :: !OccursAt(s, sep, i);
    } else if s[..|sep|] == sep {
      SplitPiecesFree(s[|sep|..], sep);
      assert !OccursAt("", sep, 0);
      assert forall k :: 1 <= k < |parts| ==> parts[k] == Split(s[|sep|..], sep)[k - 1];
    } else {
      SplitPiecesFree(s[1..], sep);
      SplitFirstIsPrefix(s, sep);
      var rest := Split(s[1..], sep);
      assert parts[0] == [s[0]] + rest[0];
      FreeAfterNonSeparator(s[0], rest[0], s, sep);
      assert forall k :: 1 <= k < |parts| ==> parts[k] == rest[k];
    }
  }

  /** Split at one character, no piece holds that character. */
  lemma SplitCharFree(s: string, c: char)
    ensures forall k :: 0 <= k < |Split(s, [c])| ==> c !in Split(s, [c])[k]
  {
    SplitPiecesFree(s, [c]);
    forall k | 0 <= k < |Split(s, [c])|
      ensures c !in Split(s, [c])[k]
    {
      var piece := Split(s, [c])[k];
      if c in piece {
        var i :| 0 <= i < |piece| && piece[i] == c;
        assert piece[i..i + 1] == [c];
        assert OccursAt(piece, [c], i);
      }
    }
  }

  /** A character and a separator-free text, together a prefix of a text
      that does not start with the separator, hold no separator. */
  lemma FreeAfterNonSeparator(c: char, t: string, s: string, sep: string)
    requires |sep| > 0 && !Contains(t, sep)
    requires 1 + |t| <= |s| && [c] + t == s[..1 + |t|]
    requires |s| >= |sep| && s[..|sep|] != sep
    ensures !Contains([c] + t, sep)
  {
    var f := [c] + t;
    OccursAtTail(f, sep);
    assert f[1..] == t;
    forall i | 0 <= i
      ensures !OccursAt(f, sep, i)
    {
      if i == 0 {
        if |sep| <= |f| {
          assert f[..|sep|] == s[..|sep|];
        }
      } else {
        assert !OccursAt(t, sep, i - 1);
      }
    }
  }

  /** The last piece of a split follows the last separator. */
  lemma {:induction false} JoinLast(parts: seq<string>, sep: string)
    requires |parts| >= 2
    ensures Join(parts, sep) == Join(parts[..|parts| - 1], sep) + sep + parts[|parts| - 1]
    decreases |parts|
  {
    if |parts| > 2 {
      JoinLast(parts[1..], sep);
      assert parts[1..][..|parts| - 2] == parts[..|parts| - 1][1..];
    }
  }

  /** Splitting on a single character that occurs after a piece free of it. */
  lemma {:induction false} SplitCharCons(x: string, c: char, y: string)
    requires c !in x
    ensures Split(x + [c] + y, [c]) == [x] + Split(y, [c])
    decreases |x|
  {
    var s := x + [c] + y;
    if |x| == 0 {
      assert s[..1] == [c];
      assert s[1..] == y;
    } else {
      assert x[0] in x;
      assert s[0] == x[0];
      assert s[..1] == [s[0]];
      assert s[1..] == x[1..] + [c] + y;
      SplitCharCons(x[1..], c, y);
      assert [s[0]] + x[1..] == x;
    }
  }

  lemma {:induction false} SplitCharNone(x: string, c: char)
    requires c !in x
    ensures Split(x, [c]) == [x]
    decreases |x|
  {
    if |x| >= 1 {
      assert x[0] in x;
      assert x[..1] != [c];
      SplitCharNone(x[1..], c);
      assert [x[0]] + x[1..] == x;
    }
  }

  /** Splitting a join on a one-character separator that no piece contains
      gives back the pieces. */
  lemma {:induction false} SplitJoinChar(parts: seq<string>, c: char)
    requires |parts| > 0
    requires forall k :: 0 <= k < |parts| ==> c !in parts[k]
    ensures Split(Join(parts, [c]), [c]) == parts
    decreases |parts|
  {
    if |parts| == 1 {
      SplitCharNone(parts[0], c);
    } else {
      SplitJoinChar(parts[1..], c);
      SplitCharCons(parts[0], c, Join(parts[1..], [c]));
      assert [parts[0]] + parts[1..] == parts;
    }
  }

  /** Length of the run of characters satisfying `keep` that starts at
      index `i`: what a greedy `\s*` or `\d+` consumes there. */
  function Run(s: string, i: nat, keep: char -> bool): (n: nat)
    requires i <= |s|
    ensures i + n <= |s|
    ensures forall k :: i <= k < i + n ==> keep(s[k])
    ensures i + n < |s| ==> !keep(s[i + n])
    decreases |s| - i
  {
    if i < |s| && keep(s[i]) then 1 + Run(s, i + 1, keep) else 0
  }

  /** A run is determined by where it starts and the first character that stops it. */
  lemma RunExact(s: string, i: nat, n: nat, keep: char -> bool)
    requires i + n <= |s|
    requires forall k :: i <= k < i + n ==> keep(s[k])
    requires i + n < |s| ==> !keep(s[i + n])
    ensures Run(s, i, keep) == n
  {
  }

  /** Index of the first `c` at or after `i`, or `|s|` when there is none. */
  function FirstFrom(s: string, c: char, i: nat): (r: nat)
    requires i <= |s|
    ensures i <= r <= |s|
    ensures forall k :: i <= k < r ==> s[k] != c
    ensures r < |s| ==> s[r] == c
    decreases |s| - i
  {
    if i == |s| || s[i] == c then i else FirstFrom(s, c, i + 1)
  }

  /** The lower-case word `w` appears at index `i` of `s`, ignoring ASCII case. */
  predicate MatchesIgnoreCase(s: string, i: nat, w: string) {
    i + |w| <= |s| && forall k :: 0 <= k < |w| ==> Lower(s[i + k]) == w[k]
  }

  /** Substring containment survives putting text around it. */
  lemma ContainsWithin(x: string, s: string, y: string, p: string)
    requires Contains(s, p)
    ensures Contains(x + s + y, p)
  {
    var i :| OccursAt(s, p, i);
    assert (x + s + y)[|x| + i..|x| + i + |p|] == s[i..i + |p|];
    assert OccursAt(x + s + y, p, |x| + i);
  }

  /** Containment survives appending text. */
  lemma ContainsExtended(s: string, e: string, p: string)
    requires Contains(s, p)
    ensures Contains(s + e, p)
  {
    ContainsWithin("", s, e, p);
    assert "" + s + e == s + e;
  }

  /** What a text contains, the text extended twice contains too. */
  lemma ContainsPrefix(a: string, b: string, c: string, p: string)
    requires Contains(a, p)
    ensures Contains(a + b + c, p)
  {
    var i :| OccursAt(a, p, i);
    assert (a + b + c)[i..i + |p|] == a[i..i + |p|];
    assert OccursAt(a + b + c, p, i);
  }

  /** Appending three texts one by one is appending their concatenation. */
  lemma AppendsRegroup(a: string, b: string, c: string, d: string)
    ensures a + b + c + d == a + (b + c + d)
  {
  }

  /** A text extended twice still starts with itself. */
  lemma PrefixOfAppends(a: string, b: string, c: string)
    ensures |a| <= |a + b + c| && (a + b + c)[..|a|] == a
  {
    assert a + b + c == a + (b + c);
  }

  function DigitChar(d: nat): (c: char)
    requires d < 10
    ensures IsDigit(c)
  {
    ('0' as int + d) as char
  }

  /** Decimal rendering of a natural number, as Python's `'{}'.format(n)`. */
  function NatToString(n: nat): (r: string)
    ensures |r| > 0 && AllDigits(r)
    decreases n
  {
    if n < 10 then [DigitChar(n)] else NatToString(n / 10) + [DigitChar(n % 10)]
  }

  /** Reading back a run of decimal digits. */
  function DigitsValue(s: string): nat
    requires AllDigits(s)
    decreases |s|
  {
    if |s| == 0 then 0 else DigitsValue(s[..|s| - 1]) * 10 + (s[|s| - 1] as int - '0' as int)
  }

  lemma {:induction false} NatToStringRoundTrip(n: nat)
    ensures DigitsValue(NatToString(n)) == n
    decreases n
  {
    var s := NatToString(n);
    if n >= 10 {
      NatToStringRoundTrip(n / 10);
      assert s[..|s| - 1] == NatToString(n / 10);
    }
  }
}
