/** What reading a heading and writing it back have to do with each other:
    a heading the bot writes is read back, on its next run, as the titles
    it was written from. */
module HeadingProofs {
  import opened Wrappers
  import opened Text
  import opened Headings

  /** A title that survives being written into a heading and read back out:
      not empty, and free of the characters that end a link (`]`) or an
      `al` argument (`|`), of line breaks, and of leading whitespace (which
      the `N=` prefix reader skips). */
  predicate Writable(t: string) {
    && |t| > 0
    && ']' !in t && '|' !in t && '\n' !in t
    && !IsSpace(t[0])
  }

  lemma SingleLinkOfLink(t: string)
    requires |t| > 0 && ']' !in t
    ensures SingleLink(Link(t)) == Some(t)
  {
    var h := Link(t);
    assert h[..2] == "[[" && h[|h| - 2..] == "]]" && h[2..|h| - 2] == t;
  }

  /** How the `N=` reader scans an argument written as `N=title`. */
  lemma EscapedRuns(ds: string, t: string, p: string)
    requires |ds| > 0 && AllDigits(ds) && p == ds + "=" + t
    requires |t| > 0 && !IsSpace(t[0])
    ensures Run(p, 0, IsSpace) == 0 && Run(p, 0, IsDigit) == |ds|
    ensures Run(p, |ds|, IsSpace) == 0 && p[|ds|] == '='
    ensures |ds| + 1 < |p| && Run(p, |ds| + 1, IsSpace) == 0 && p[|ds| + 1..] == t
  {
    assert IsDigit(p[0]);
    RunExact(p, 0, 0, IsSpace);
    assert forall k :: 0 <= k < |ds| ==> IsDigit(p[k]);
    assert p[|ds|] == '=';
    RunExact(p, 0, |ds|, IsDigit);
    RunExact(p, |ds|, 0, IsSpace);
    assert p[|ds| + 1..] == t;
    assert p[|ds| + 1] == t[0];
    RunExact(p, |ds| + 1, 0, IsSpace);
  }

  /** The `N=` reader on an argument whose digits end at `c`, followed by
      `=` and a title that starts with no space and holds no newline. */
  lemma AlPartReads(p: string, c: nat)
    requires 0 < c && c + 1 < |p|
    requires Run(p, 0, IsSpace) == 0 && Run(p, 0, IsDigit) == c
    requires Run(p, c, IsSpace) == 0 && p[c] == '='
    requires Run(p, c + 1, IsSpace) == 0 && '\n' !in p[c + 1..]
    ensures AlPart(p) == p[c + 1..]
  {
    assert AlEquals(p) == Some(c);
    AlValueReads(p, c);
  }

  /** The value after `=` is the rest of the argument when it starts with no
      space and holds no newline. */
  lemma AlValueReads(p: string, c: nat)
    requires c + 1 < |p|
    requires Run(p, c + 1, IsSpace) == 0 && '\n' !in p[c + 1..]
    ensures AlValue(p, c) == p[c + 1..]
  {
  }

  /** An argument written as `N=title` is read back as the title. */
  lemma AlPartOfEscaped(ds: string, t: string)
    requires |ds| > 0 && AllDigits(ds)
    requires |t| > 0 && '\n' !in t && !IsSpace(t[0])
    ensures AlPart(ds + "=" + t) == t
  {
    var p := ds + "=" + t;
    EscapedRuns(ds, t, p);
    AlPartReads(p, |ds|);
  }

  /** The titles written with `escapeEqualSign` are read back by the `al`
      argument reader. */
  lemma EscapedArgumentsReadBack(ts: seq<string>)
    requires forall k :: 0 <= k < |ts| ==> Writable(ts[k])
    ensures var es := EscapeEqualSign(ts);
      forall k :: 0 <= k < |ts| ==> AlPart(es[k]) == ts[k] && '|' !in es[k] && ']' !in es[k] && |es[k]| > 0
  {
    var es := EscapeEqualSign(ts);
    if exists k :: 0 <= k < |ts| && '=' in ts[k] {
      forall k | 0 <= k < |ts|
        ensures AlPart(es[k]) == ts[k] && '|' !in es[k] && ']' !in es[k] && |es[k]| > 0
      {
        EscapedArgument(NatToString(k + 1), ts[k], es[k]);
      }
    }
  }

  /** One argument written as `N=title`. */
  lemma EscapedArgument(ds: string, t: string, e: string)
    requires |ds| > 0 && AllDigits(ds) && Writable(t) && e == ds + "=" + t
    ensures AlPart(e) == t && '|' !in e && ']' !in e && |e| > 0
  {
    AlPartOfEscaped(ds, t);
    assert forall i :: 0 <= i < |ds| ==> IsDigit(ds[i]);
    assert '|' !in ds && ']' !in ds;
  }

  /** A heading of the form `{{al|...}}` is read by the third shape alone. */
  lemma AlHeadingShape(inner: string)
    requires |inner| >= 3 && ']' !in inner && '|' in inner[1..|inner| - 1]
    ensures ParseHeading("{{al|" + inner + "}}") == Some(AlTitles(inner))
  {
    var h := "{{al|" + inner + "}}";
    assert h[0] == '{' && h[1] == '{' && h[2] == 'a' && h[3] == 'l' && h[4] == '|';
    assert h[|h| - 2] == '}' && h[|h| - 1] == '}';
    assert h[5..|h| - 2] == inner;
    assert AlInner(h) == Some(inner);
    assert h[..2] != "[[";
    assert SingleLink(h).None?;
    assert LinkLen(h).None?;
    assert !IsLinkList(h);
  }

  /** The argument text of an `al` heading written from two or more pieces. */
  lemma JoinedArguments(es: seq<string>)
    requires |es| >= 2
    requires forall k :: 0 <= k < |es| ==> |es[k]| > 0 && ']' !in es[k]
    ensures var inner := Join(es, "|");
      |inner| >= 3 && ']' !in inner && '|' in inner[1..|inner| - 1]
  {
    var inner := Join(es, "|");
    var rest := Join(es[1..], "|");
    assert inner == es[0] + "|" + rest;
    assert |rest| >= 1 by {
      if |es[1..]| > 1 {
        assert rest == es[1] + "|" + Join(es[2..], "|");
      }
    }
    assert inner[1..|inner| - 1][|es[0]| - 1] == '|';
    JoinFree(es, "|", ']');
  }

  /** An `al` heading written from two or more pieces is read by the third
      shape. */
  lemma AlRenderedParses(es: seq<string>)
    requires |es| >= 2
    requires forall k :: 0 <= k < |es| ==> |es[k]| > 0 && ']' !in es[k]
    ensures ParseHeading(RenderHeading(es)) == Some(AlTitles(Join(es, "|")))
  {
    JoinedArguments(es);
    AlHeadingShape(Join(es, "|"));
  }

  /** The arguments joined by `|` are split and read back one by one. */
  lemma AlTitlesOfJoined(es: seq<string>, ts: seq<string>)
    requires |es| == |ts| > 0
    requires forall k :: 0 <= k < |es| ==> '|' !in es[k] && AlPart(es[k]) == ts[k]
    ensures AlTitles(Join(es, "|")) == ts
  {
    SplitJoinChar(es, '|');
    var titles := AlTitles(Join(es, "|"));
    assert |titles| == |ts|;
    forall k | 0 <= k < |ts|
      ensures titles[k] == ts[k]
    {
      assert titles[k] == AlPart(es[k]);
    }
  }

  /** An `al` heading built from two or more writable titles is read back as
      those titles. */
  lemma AlHeadingReadBack(ts: seq<string>)
    requires |ts| >= 2
    requires forall k :: 0 <= k < |ts| ==> Writable(ts[k])
    ensures ParseHeading(RenderHeading(EscapeEqualSign(ts))) == Some(ts)
  {
    var es := EscapeEqualSign(ts);
    EscapedArgumentsReadBack(ts);
    AlRenderedParses(es);
    AlTitlesOfJoined(es, ts);
  }

  /** Any heading the bot writes for writable titles is read back as those
      titles, except a lone title holding `=` (see
      `LoneTitleWithEqualSign`). */
  lemma RenderedHeadingReadBack(ts: seq<string>)
    requires |ts| > 0
    requires forall k :: 0 <= k < |ts| ==> Writable(ts[k])
    requires |ts| == 1 ==> '=' !in ts[0]
    ensures ParseHeading(RenderHeading(EscapeEqualSign(ts))) == Some(ts)
  {
    if |ts| == 1 {
      assert ts == [ts[0]];
      assert EscapeEqualSign(ts) == ts;
      SingleLinkOfLink(ts[0]);
    } else {
      AlHeadingReadBack(ts);
    }
  }

  /** A single title holding `=` is escaped too, and the link the bot writes
      then names `1=` followed by the title. */
  lemma LoneTitleWithEqualSign(t: string)
    requires '=' in t && ']' !in t
    ensures RenderHeading(EscapeEqualSign([t])) == Link("1=" + t)
    ensures ParseHeading(RenderHeading(EscapeEqualSign([t]))) == Some(["1=" + t])
  {
    assert NatToString(1) == "1" by {
      assert DigitChar(1) == '1';
    }
    var es := EscapeEqualSign([t]);
    assert 0 <= 0 < |[t]| && '=' in [t][0];
    assert es[0] == NatToString(1) + "=" + t;
    assert |es| == 1 && es[0] == "1=" + t;
    assert es == ["1=" + t];
    SingleLinkOfLink("1=" + t);
  }

  /** Escaping adds only digits and `=`, so a character that is neither
      stays out of the titles. */
  lemma EscapeKeepsOut(ts: seq<string>, c: char)
    ensures !IsDigit(c) && c != '=' && (forall k :: 0 <= k < |ts| ==> c !in ts[k]) ==>
              forall k :: 0 <= k < |ts| ==> c !in EscapeEqualSign(ts)[k]
  {
    if !IsDigit(c) && c != '=' && (forall k :: 0 <= k < |ts| ==> c !in ts[k]) && exists k :: 0 <= k < |ts| && '=' in ts[k] {
      forall k | 0 <= k < |ts|
        ensures c !in EscapeEqualSign(ts)[k]
      {
        var n := NatToString(k + 1);
        assert EscapeEqualSign(ts)[k] == n + "=" + ts[k];
        assert c !in n by {
          assert forall i :: 0 <= i < |n| ==> IsDigit(n[i]);
        }
      }
    }
  }

  /** The round trip of a whole section heading: the line written for a
      section is read back, on the next run, as the same titles at the same
      level. */
  lemma SectionHeadingRoundTrip(level: string, ts: seq<string>)
    requires |level| > 0 && forall k :: 0 <= k < |level| ==> level[k] == '='
    requires |ts| > 0
    requires forall k :: 0 <= k < |ts| ==> Writable(ts[k])
    requires |ts| == 1 ==> '=' !in ts[0]
    ensures var line := HeadingLine(level, RenderHeading(EscapeEqualSign(ts)));
      ParseHeading(HeadingText(line)) == Some(ts) && HeadingLevel(line) == Some(level)
  {
    assert IsLevel(level);
    var h := RenderHeading(EscapeEqualSign(ts));
    assert |h| > 0 && !IsHeadingPad(h[0]) && !IsHeadingPad(h[|h| - 1]);
    assert HeadingText(HeadingLine(level, h)) == h;
    RenderedHeadingReadBack(ts);
  }

  // ---------------------------------------------------------------------
  // List headings
  // ---------------------------------------------------------------------

  /** Links joined by the given separators, as a list heading writes them. */
  function JoinLinks(ts: seq<string>, ds: seq<char>): string
    requires |ts| > 0 && |ds| == |ts| - 1
    decreases |ts|
  {
    if |ts| == 1 then Link(ts[0]) else Link(ts[0]) + [ds[0]] + JoinLinks(ts[1..], ds[1..])
  }

  /** Titles of a list heading that are read back unchanged. */
  predicate ListTitle(t: string) {
    && |t| > 0
    && ']' !in t && '、' !in t
    && t[0] != '[' && t[|t| - 1] != '['
  }

  lemma {:induction false} NormalizeKeepsBracketFree(x: string, y: string)
    requires ']' !in x
    ensures NormalizeDelims(x + y) == x + NormalizeDelims(y)
    decreases |x|
  {
    if |x| > 0 {
      assert x[0] in x;
      assert (x + y)[1..] == x[1..] + y;
      NormalizeKeepsBracketFree(x[1..], y);
      assert [x[0]] + x[1..] == x;
    } else {
      assert x + y == y;
    }
  }

  lemma NormalizeLink(t: string)
    requires ']' !in t
    ensures NormalizeDelims(Link(t)) == Link(t)
  {
    assert Link(t) == ("[[" + t) + "]]";
    NormalizeKeepsBracketFree("[[" + t, "]]");
    assert NormalizeDelims("]]") == "]]" by {
      assert "]]"[1..] == "]";
      assert "]"[1..] == "";
    }
  }

  /** A `、` between links is kept. */
  lemma NormalizeKeptDelim(rest: string)
    ensures NormalizeDelims("]]、" + rest) == "]]、" + NormalizeDelims(rest)
  {
    var tail := "]]、" + rest;
    assert tail[1..] == "]、" + rest;
    assert tail[1..][1..] == "、" + rest;
    NormalizeKeepsBracketFree("、", rest);
  }

  /** A `，` or a space between links becomes `、`. */
  lemma NormalizeReplacedDelim(d: char, rest: string)
    requires d == '，' || d == ' '
    requires |rest| >= 2 && rest[0] == '[' && rest[1] == '['
    ensures NormalizeDelims("]]" + [d] + rest) == "]]、" + NormalizeDelims(rest)
  {
    var tail := "]]" + [d] + rest;
    var x := rest[2..];
    assert tail[0] == ']' && tail[1] == ']' && tail[2] == d && tail[3] == '[' && tail[4] == '[';
    assert tail[5..] == x;
    NormalizeAtReplaced(tail);
    assert rest == "[[" + x;
    NormalizeKeepsBracketFree("[[", x);
    ReplacedShape(NormalizeDelims(x));
  }

  /** One step of the substitution at a replaced separator. */
  lemma NormalizeAtReplaced(s: string)
    requires |s| >= 5 && s[0] == ']' && s[1] == ']' && (s[2] == '，' || s[2] == ' ')
    requires s[3] == '[' && s[4] == '['
    ensures NormalizeDelims(s) == "]]、[[" + NormalizeDelims(s[5..])
  {
  }

  lemma ReplacedShape(n: string)
    ensures "]]、[[" + n == "]]、" + ("[[" + n)
  {
  }

  lemma NormalizeLinkThenKept(t: string, rest: string)
    requires ']' !in t
    ensures NormalizeDelims(("[[" + t) + ("]]、" + rest)) == ("[[" + t) + ("]]、" + NormalizeDelims(rest))
  {
    NormalizeKeepsBracketFree("[[" + t, "]]、" + rest);
    NormalizeKeptDelim(rest);
  }

  lemma NormalizeLinkThenReplaced(t: string, d: char, rest: string)
    requires ']' !in t && (d == '，' || d == ' ')
    requires |rest| >= 2 && rest[0] == '[' && rest[1] == '['
    ensures NormalizeDelims(("[[" + t) + ("]]" + [d] + rest)) == ("[[" + t) + ("]]、" + NormalizeDelims(rest))
  {
    NormalizeKeepsBracketFree("[[" + t, "]]" + [d] + rest);
    NormalizeReplacedDelim(d, rest);
  }

  /** The separator after a link, before the next one, is read as `、`. */
  lemma NormalizeLinkThenDelim(t: string, d: char, rest: string, s: string)
    requires ']' !in t && IsListDelim(d)
    requires |rest| >= 2 && rest[0] == '[' && rest[1] == '['
    requires s == ("[[" + t) + ("]]" + [d] + rest)
    ensures NormalizeDelims(s) == ("[[" + t) + ("]]、" + NormalizeDelims(rest))
  {
    if d == '、' {
      assert "]]" + [d] + rest == "]]、" + rest;
      NormalizeLinkThenKept(t, rest);
    } else {
      NormalizeLinkThenReplaced(t, d, rest);
    }
  }

  /** Every separator between two links is read as `、`. */
  lemma {:induction false} NormalizeJoinLinks(ts: seq<string>, ds: seq<char>)
    requires |ts| > 0 && |ds| == |ts| - 1
    requires forall k :: 0 <= k < |ts| ==> ']' !in ts[k]
    requires forall k :: 0 <= k < |ds| ==> IsListDelim(ds[k])
    ensures NormalizeDelims(JoinLinks(ts, ds)) == Join(LinksOf(ts), "、")
    decreases |ts|
  {
    if |ts| == 1 {
      NormalizeLink(ts[0]);
    } else {
      var rest := JoinLinks(ts[1..], ds[1..]);
      NormalizeJoinLinks(ts[1..], ds[1..]);
      JoinLinksOpens(ts[1..], ds[1..]);
      var j := JoinLinks(ts, ds);
      LinkThenDelimShape(ts[0], ds[0], rest);
      NormalizeLinkThenDelim(ts[0], ds[0], rest, j);
      LinkThenJoinedShape(ts[0], NormalizeDelims(rest));
      assert LinksOf(ts)[1..] == LinksOf(ts[1..]);
    }
  }

  /** Links joined by separators open with `[[`. */
  lemma JoinLinksOpens(ts: seq<string>, ds: seq<char>)
    requires |ts| > 0 && |ds| == |ts| - 1
    ensures var s := JoinLinks(ts, ds); |s| >= 2 && s[0] == '[' && s[1] == '['
  {
    var l := Link(ts[0]);
    assert l[0] == '[' && l[1] == '[';
    if |ts| > 1 {
      assert JoinLinks(ts, ds) == l + ([ds[0]] + JoinLinks(ts[1..], ds[1..]));
    }
  }

  lemma LinkThenDelimShape(t: string, d: char, rest: string)
    ensures Link(t) + [d] + rest == ("[[" + t) + ("]]" + [d] + rest)
  {
  }

  lemma LinkThenJoinedShape(t: string, n: string)
    ensures ("[[" + t) + ("]]、" + n) == Link(t) + "、" + n
  {
  }

  function LinksOf(ts: seq<string>): (r: seq<string>)
    ensures |r| == |ts|
  {
    seq(|ts|, k requires 0 <= k < |ts| => Link(ts[k]))
  }

  /** A list heading is recognised as one. */
  lemma {:induction false} JoinLinksIsList(ts: seq<string>, ds: seq<char>, more: bool)
    requires |ts| > 0 && |ds| == |ts| - 1
    requires |ts| >= 2 || more
    requires forall k :: 0 <= k < |ts| ==> |ts[k]| > 0 && ']' !in ts[k]
    requires forall k :: 0 <= k < |ds| ==> IsListDelim(ds[k])
    ensures LinkListFrom(JoinLinks(ts, ds), more)
    decreases |ts|
  {
    var s := JoinLinks(ts, ds);
    var t := ts[0];
    var e := |t| + 4;
    assert s[..e] == Link(t);
    assert s[e - 2] == ']';
    assert forall k :: 2 <= k < e - 2 ==> s[k] == t[k - 2];
    assert FirstFrom(s, ']', 2) == e - 2;
    assert LinkLen(s) == Some(e);
    if |ts| > 1 {
      assert s == Link(t) + [ds[0]] + JoinLinks(ts[1..], ds[1..]);
      assert s[e] == ds[0];
      assert s[e + 1..] == JoinLinks(ts[1..], ds[1..]);
      JoinLinksIsList(ts[1..], ds[1..], true);
    }
  }

  lemma LinkStripsToTitle(t: string)
    requires ListTitle(t)
    ensures Strip(Link(t), IsBracket) == t
  {
    assert t[0] in t && t[|t| - 1] in t;
    assert Link(t) == "[[" + t + "]]";
    StripFrame("[[", t, "]]", IsBracket);
  }

  /** A heading of two or more links is not one link: its inner text holds
      the `]]` of the first. */
  lemma JoinedLinksNotSingle(ts: seq<string>, ds: seq<char>)
    requires |ts| >= 2 && |ds| == |ts| - 1
    ensures SingleLink(JoinLinks(ts, ds)).None?
  {
    var h := JoinLinks(ts, ds);
    assert h == Link(ts[0]) + [ds[0]] + JoinLinks(ts[1..], ds[1..]);
    var i := |ts[0]| + 3;
    assert h[i] == ']';
    assert 2 <= i < |h| - 2;
    if |h| >= 5 {
      assert h[2..|h| - 2][i - 2] == ']';
    }
  }

  lemma LinkFreeOfComma(t: string)
    requires ListTitle(t)
    ensures '、' !in Link(t)
  {
    assert Link(t) == "[[" + t + "]]";
  }

  /** Splitting the normalised links at `、` gives the links back. */
  lemma SplitLinks(ts: seq<string>)
    requires |ts| > 0
    requires forall k :: 0 <= k < |ts| ==> ListTitle(ts[k])
    ensures Split(Join(LinksOf(ts), "、"), "、") == LinksOf(ts)
  {
    var links := LinksOf(ts);
    forall k | 0 <= k < |links|
      ensures '、' !in links[k]
    {
      LinkFreeOfComma(ts[k]);
    }
    SplitJoinChar(links, '、');
  }

  /** Stripping the brackets from the split links gives the titles back. */
  lemma ListTitlesOfLinks(ts: seq<string>, h: string)
    requires |ts| > 0
    requires forall k :: 0 <= k < |ts| ==> ListTitle(ts[k])
    requires NormalizeDelims(h) == Join(LinksOf(ts), "、")
    ensures ListTitles(h) == ts
  {
    SplitLinks(ts);
    var r := ListTitles(h);
    forall k | 0 <= k < |ts|
      ensures r[k] == ts[k]
    {
      LinkStripsToTitle(ts[k]);
    }
  }

  /** A list heading of two or more links is read as its titles, in order,
      whichever of `、`, `，` or a space separates them. */
  lemma ListHeadingReadBack(ts: seq<string>, ds: seq<char>)
    requires |ts| >= 2 && |ds| == |ts| - 1
    requires forall k :: 0 <= k < |ts| ==> ListTitle(ts[k])
    requires forall k :: 0 <= k < |ds| ==> IsListDelim(ds[k])
    ensures ParseHeading(JoinLinks(ts, ds)) == Some(ts)
  {
    var h := JoinLinks(ts, ds);
    JoinLinksIsList(ts, ds, false);
    JoinedLinksNotSingle(ts, ds);
    NormalizeJoinLinks(ts, ds);
    ListTitlesOfLinks(ts, h);
  }
}
