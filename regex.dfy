/** The fragment of Python's `re.sub` that the resume cleaner uses: eight fixed
    patterns, each replaced by a fixed string, scanning left to right. */
module Regex {
  import opened CharClasses

  /** The eight patterns of clean_resume, in the order they are applied. */
  datatype Pattern =
    | Url             // "http", a non-empty run of non-whitespace, one whitespace character
    | RtOrCc          // the two-letter literal "RT" or the two-letter literal "cc"
    | Mention         // "@" and a non-empty run of non-whitespace
    | Crlf            // carriage return followed by line feed
    | NotWordOrSpace  // one character that is neither a word character nor whitespace
    | NonAsciiRun     // a non-empty run of characters outside 0..127
    | Hashtag         // "#" and a non-empty run of non-whitespace
    | SpaceRun        // a non-empty run of whitespace

  /** The character sets whose runs the patterns consume greedily. */
  datatype CharSet = Space | NonSpace | NonAscii

  predicate InSet(cl: Classes, cs: CharSet, c: char) {
    match cs
    case Space => cl.isSpace(c)
    case NonSpace => !cl.isSpace(c)
    case NonAscii => !IsAscii(c)
  }

  /** Length of the longest prefix of `s` drawn from `cs` (a greedy `+`/`*`). */
  function RunLength(cl: Classes, cs: CharSet, s: string): (n: nat)
    ensures n <= |s|
    ensures forall i :: 0 <= i < n ==> InSet(cl, cs, s[i])
    ensures n < |s| ==> !InSet(cl, cs, s[n])
  {
    if s == [] || !InSet(cl, cs, s[0]) then 0 else 1 + RunLength(cl, cs, s[1..])
  }

  /** A tag character followed by a greedy, non-empty run of non-whitespace. */
  function TaggedRun(cl: Classes, tag: char, s: string): (n: nat)
    ensures n <= |s|
    ensures n > 0 ==> n >= 2 && s[0] == tag
  {
    if |s| >= 1 && s[0] == tag then
      var k := RunLength(cl, NonSpace, s[1..]);
      if k >= 1 then 1 + k else 0
    else 0
  }

  /** `c` can begin a match of `p`: the first item of the pattern admits it. */
  predicate CanStart(cl: Classes, p: Pattern, c: char) {
    match p
    case Url => c == 'h'
    case RtOrCc => c == 'R' || c == 'c'
    case Mention => c == '@'
    case Crlf => c == '\r'
    case NotWordOrSpace => !cl.isWord(c) && !cl.isSpace(c)
    case NonAsciiRun => !IsAscii(c)
    case Hashtag => c == '#'
    case SpaceRun => cl.isSpace(c)
  }

  /** Length of the match the regex engine finds when it tries `p` at the
      start of `s`; 0 when there is none (no pattern here matches ""). */
  function MatchLen(cl: Classes, p: Pattern, s: string): (n: nat)
    ensures n <= |s|
    ensures n > 0 ==> CanStart(cl, p, s[0])
  {
    match p
    case Url =>
      if |s| >= 4 && s[..4] == "http" then
        var k := RunLength(cl, NonSpace, s[4..]);
        if k >= 1 && 4 + k < |s| then 4 + k + 1 else 0
      else 0
    case RtOrCc => if |s| >= 2 && (s[..2] == "RT" || s[..2] == "cc") then 2 else 0
    case Mention => TaggedRun(cl, '@', s)
    case Crlf => if |s| >= 2 && s[..2] == "\r\n" then 2 else 0
    case NotWordOrSpace => if |s| >= 1 && !cl.isWord(s[0]) && !cl.isSpace(s[0]) then 1 else 0
    case NonAsciiRun => RunLength(cl, NonAscii, s)
    case Hashtag => TaggedRun(cl, '#', s)
    case SpaceRun => RunLength(cl, Space, s)
  }

  /** `s[..n]` belongs to the language of `p`: the declarative reading of
      each pattern, with no greediness built in. */
  ghost predicate Matches(cl: Classes, p: Pattern, s: string, n: nat) {
    n <= |s| &&
    match p
    case Url =>
      && n >= 6 && s[..4] == "http"
      && (forall i :: 4 <= i < n - 1 ==> !cl.isSpace(s[i]))
      && cl.isSpace(s[n - 1])
    case RtOrCc => n == 2 && (s[..2] == "RT" || s[..2] == "cc")
    case Mention => n >= 2 && s[0] == '@' && forall i :: 1 <= i < n ==> !cl.isSpace(s[i])
    case Crlf => n == 2 && s[..2] == "\r\n"
    case NotWordOrSpace => n == 1 && !cl.isWord(s[0]) && !cl.isSpace(s[0])
    case NonAsciiRun => n >= 1 && forall i :: 0 <= i < n ==> !IsAscii(s[i])
    case Hashtag => n >= 2 && s[0] == '#' && forall i :: 1 <= i < n ==> !cl.isSpace(s[i])
    case SpaceRun => n >= 1 && forall i :: 0 <= i < n ==> cl.isSpace(s[i])
  }

  /** The engine's choice is a match, and the longest one: a greedy run
      followed by nothing (or, for a URL, by the one whitespace character it
      must end on) leaves no room for a longer match. A URL match is even
      unique, so backtracking cannot find another. */
  lemma MatchLenIsLongestMatch(cl: Classes, p: Pattern, s: string)
    ensures MatchLen(cl, p, s) > 0 ==> Matches(cl, p, s, MatchLen(cl, p, s))
    ensures forall n: nat :: Matches(cl, p, s, n) ==> 0 < n <= MatchLen(cl, p, s)
    ensures p == Url ==> forall n: nat :: Matches(cl, p, s, n) ==> n == MatchLen(cl, p, s)
  {
    match p
    case Url =>
      if |s| >= 4 && s[..4] == "http" {
        var k := RunLength(cl, NonSpace, s[4..]);
        forall n: nat | Matches(cl, p, s, n) ensures n == 4 + k + 1 {
          assert cl.isSpace(s[4..][n - 5]);
          if 4 + k < |s| {
            assert cl.isSpace(s[4..][k]);
          }
        }
      }
    case Mention =>
      if |s| >= 1 && s[0] == '@' {
        var k := RunLength(cl, NonSpace, s[1..]);
        forall n: nat | Matches(cl, p, s, n) ensures n <= 1 + k {
          if 1 + k < |s| {
            assert cl.isSpace(s[1..][k]);
          }
        }
      }
    case Hashtag =>
      if |s| >= 1 && s[0] == '#' {
        var k := RunLength(cl, NonSpace, s[1..]);
        forall n: nat | Matches(cl, p, s, n) ensures n <= 1 + k {
          if 1 + k < |s| {
            assert cl.isSpace(s[1..][k]);
          }
        }
      }
    case _ =>
  }

  /** `re.sub(p, rep, s)`: try `p` at the current position; on a match emit
      `rep` and resume after it, otherwise copy one character and move on. */
  function Sub(cl: Classes, p: Pattern, rep: string, s: string): (r: string)
    ensures |rep| <= 1 ==> |r| <= |s|
    ensures forall c :: c in r ==> c in s || c in rep
    decreases |s|
  {
    if s == [] then []
    else
      var n := MatchLen(cl, p, s);
      if n > 0 then rep + Sub(cl, p, rep, s[n..])
      else [s[0]] + Sub(cl, p, rep, s[1..])
  }

  /** A pass whose pattern matches nowhere returns its input unchanged. */
  lemma {:induction false} SubWithoutMatchIsIdentity(cl: Classes, p: Pattern, rep: string, s: string)
    requires forall i :: 0 <= i < |s| ==> MatchLen(cl, p, s[i..]) == 0
    ensures Sub(cl, p, rep, s) == s
    decreases |s|
  {
    if s != [] {
      assert s[0..] == s;
      forall i | 0 <= i < |s| - 1 ensures MatchLen(cl, p, s[1..][i..]) == 0 {
        assert s[1..][i..] == s[i + 1..];
      }
      SubWithoutMatchIsIdentity(cl, p, rep, s[1..]);
    }
  }

  /** One scan step that finds no match: the character is copied. */
  lemma SubCopiesFront(cl: Classes, p: Pattern, rep: string, c: char, b: string)
    requires MatchLen(cl, p, [c] + b) == 0
    ensures Sub(cl, p, rep, [c] + b) == [c] + Sub(cl, p, rep, b)
  {
    assert ([c] + b)[1..] == b;
  }

  /** One scan step that matches all of `m`: `m` becomes the replacement. */
  lemma SubReplacesFront(cl: Classes, p: Pattern, rep: string, m: string, b: string)
    requires |m| > 0 && MatchLen(cl, p, m + b) == |m|
    ensures Sub(cl, p, rep, m + b) == rep + Sub(cl, p, rep, b)
  {
    assert (m + b)[|m|..] == b;
  }

  /** A prefix in which no character can begin a match is copied unchanged. */
  lemma {:induction false} SubInertPrefix(cl: Classes, p: Pattern, rep: string, a: string, b: string)
    requires forall c :: c in a ==> !CanStart(cl, p, c)
    ensures Sub(cl, p, rep, a + b) == a + Sub(cl, p, rep, b)
    decreases |a|
  {
    if |a| == 0 {
      assert a + b == b;
    } else {
      var rest := a[1..] + b;
      assert a + b == [a[0]] + rest;
      assert a[0] in a;
      assert MatchLen(cl, p, [a[0]] + rest) == 0 by {
        assert ([a[0]] + rest)[0] == a[0];
      }
      SubCopiesFront(cl, p, rep, a[0], rest);
      SubInertPrefix(cl, p, rep, a[1..], b);
      assert a == [a[0]] + a[1..];
    }
  }

  /** A pass over text in which no character can begin a match is a no-op. */
  lemma SubInert(cl: Classes, p: Pattern, rep: string, a: string)
    requires forall c :: c in a ==> !CanStart(cl, p, c)
    ensures Sub(cl, p, rep, a) == a
  {
    SubInertPrefix(cl, p, rep, a, []);
    assert a + [] == a;
  }

  /** A greedy run reads through a prefix drawn from its set. */
  lemma {:induction false} RunLengthAppend(cl: Classes, cs: CharSet, a: string, b: string)
    requires forall c :: c in a ==> InSet(cl, cs, c)
    ensures RunLength(cl, cs, a + b) == |a| + RunLength(cl, cs, b)
    decreases |a|
  {
    if a != [] {
      var s := a + b;
      assert s[0] == a[0] && s[1..] == a[1..] + b;
      assert a[0] in a;
      assert RunLength(cl, cs, s) == 1 + RunLength(cl, cs, a[1..] + b);
      RunLengthAppend(cl, cs, a[1..], b);
    } else {
      assert a + b == b;
    }
  }

  /** "http", a non-empty run without whitespace and one whitespace
      character form a match, whatever follows. */
  lemma UrlMatch(cl: Classes, body: string, w: char, rest: string)
    requires |body| >= 1 && forall c :: c in body ==> !cl.isSpace(c)
    requires cl.isSpace(w)
    ensures MatchLen(cl, Url, "http" + body + [w] + rest) == 4 + |body| + 1
  {
    var s := "http" + body + [w] + rest;
    assert s[4..] == body + ([w] + rest);
    RunLengthAppend(cl, NonSpace, body, [w] + rest);
  }

  /** The tag, then a non-empty run without whitespace that ends at the
      end of the text or at whitespace: the run is taken whole. */
  lemma TaggedMatch(cl: Classes, tag: char, body: string, rest: string)
    requires |body| >= 1 && forall c :: c in body ==> !cl.isSpace(c)
    requires |rest| == 0 || cl.isSpace(rest[0])
    ensures TaggedRun(cl, tag, [tag] + body + rest) == 1 + |body|
  {
    assert ([tag] + body + rest)[1..] == body + rest;
    RunLengthAppend(cl, NonSpace, body, rest);
  }

  /** The URL pass deletes "http", the greedy run of non-whitespace after it
      and exactly one whitespace character, then carries on with the rest. */
  lemma UrlPassRemovesUrl(cl: Classes, body: string, w: char, rest: string)
    requires |body| >= 1 && forall c :: c in body ==> !cl.isSpace(c)
    requires cl.isSpace(w)
    ensures Sub(cl, Url, "", "http" + body + [w] + rest) == Sub(cl, Url, "", rest)
  {
    UrlMatch(cl, body, w, rest);
    SubReplacesFront(cl, Url, "", "http" + body + [w], rest);
  }

  /** A URL match always ends on a whitespace character. */
  lemma UrlMatchEndsOnSpace(cl: Classes, s: string)
    ensures MatchLen(cl, Url, s) > 0 ==> cl.isSpace(s[MatchLen(cl, Url, s) - 1])
  {
    MatchLenIsLongestMatch(cl, Url, s);
  }

  /** Text without whitespace after `a` cannot take part in a URL match. */
  lemma UrlMatchIgnoresSpacelessTail(cl: Classes, a: string, t: string)
    requires forall c :: c in t ==> !cl.isSpace(c)
    ensures MatchLen(cl, Url, a + t) == MatchLen(cl, Url, a)
  {
    var s := a + t;
    MatchLenIsLongestMatch(cl, Url, s);
    MatchLenIsLongestMatch(cl, Url, a);
    var m := MatchLen(cl, Url, s);
    var m' := MatchLen(cl, Url, a);
    UrlMatchEndsOnSpace(cl, s);
    forall j | |a| <= j < |s| ensures !cl.isSpace(s[j]) {
      assert s[j] == t[j - |a|] && t[j - |a|] in t;
    }
    if m > 0 {
      assert s[..4] == a[..4];
      assert forall i :: 0 <= i < m ==> s[i] == a[i];
      assert Matches(cl, Url, a, m);
    }
    if m' > 0 {
      assert a[..4] == s[..4];
      assert forall i :: 0 <= i < m' ==> s[i] == a[i];
      assert Matches(cl, Url, s, m');
    }
  }

  /** Where no whitespace follows, an "http" token is left alone: the URL
      pass handles `a` as if the tail were not there and keeps the tail. */
  lemma {:induction false} UrlPassKeepsSpacelessTail(cl: Classes, a: string, t: string)
    requires forall c :: c in t ==> !cl.isSpace(c)
    ensures Sub(cl, Url, "", a + t) == Sub(cl, Url, "", a) + t
    decreases |a|
  {
    if |a| == 0 {
      assert a + t == t;
      forall i | 0 <= i < |t| ensures MatchLen(cl, Url, t[i..]) == 0 {
        var u := t[i..];
        forall j | 0 <= j < |u| ensures !cl.isSpace(u[j]) {
          assert u[j] in t;
        }
        UrlMatchEndsOnSpace(cl, u);
      }
      SubWithoutMatchIsIdentity(cl, Url, "", t);
    } else {
      var m := MatchLen(cl, Url, a);
      UrlMatchIgnoresSpacelessTail(cl, a, t);
      if m > 0 {
        assert (a + t)[m..] == a[m..] + t;
        UrlPassKeepsSpacelessTail(cl, a[m..], t);
      } else {
        assert (a + t)[0] == a[0] && (a + t)[1..] == a[1..] + t;
        UrlPassKeepsSpacelessTail(cl, a[1..], t);
      }
    }
  }
}
