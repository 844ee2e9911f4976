/** clean_resume: eight `re.sub` passes applied in a fixed order, then `strip`. */
module ResumeCleaner {
  import opened CharClasses
  import opened Regex

  // ---------------------------------------------------------------------
  // The function itself, stage by stage
  // ---------------------------------------------------------------------

  /** Passes 1-3: URLs with the whitespace after them, "RT"/"cc", mentions. */
  function StripMarkup(cl: Classes, s: string): (r: string)
    ensures |r| <= |s|
  {
    Sub(cl, Mention, "", Sub(cl, RtOrCc, "", Sub(cl, Url, "", s)))
  }

  /** Pass 4: each carriage-return/line-feed pair becomes one space. */
  function JoinLines(cl: Classes, s: string): (r: string)
    ensures |r| <= |s|
  {
    Sub(cl, Crlf, " ", s)
  }

  /** Passes 5-7: symbols, non-ASCII runs, hashtags. */
  function DropSymbols(cl: Classes, s: string): (r: string)
    ensures |r| <= |s|
  {
    Sub(cl, Hashtag, "", Sub(cl, NonAsciiRun, "", Sub(cl, NotWordOrSpace, "", s)))
  }

  /** Pass 8 and the final strip: whitespace runs become one space, and
      whitespace at either end goes. */
  function Normalize(cl: Classes, s: string): (r: string)
    ensures |r| <= |s|
    ensures |r| == 0 || (!cl.isSpace(r[0]) && !cl.isSpace(r[|r| - 1]))
  {
    Strip(cl, Sub(cl, SpaceRun, " ", s))
  }

  /** clean_resume(text), for classes `cl` standing for Python's `\w`/`\s`. */
  function CleanResume(cl: Classes, text: string): (r: string)
    ensures |r| <= |text|
    ensures |r| == 0 || (!cl.isSpace(r[0]) && !cl.isSpace(r[|r| - 1]))
  {
    var t := JoinLines(cl, StripMarkup(cl, text));
    Normalize(cl, DropSymbols(cl, t))
  }

  // ---------------------------------------------------------------------
  // str.strip
  // ---------------------------------------------------------------------

  /** Length of the longest suffix of `s` made of whitespace. */
  function TrailingSpaces(cl: Classes, s: string): (n: nat)
    ensures n <= |s|
    ensures forall i :: |s| - n <= i < |s| ==> cl.isSpace(s[i])
    ensures n < |s| ==> !cl.isSpace(s[|s| - n - 1])
  {
    if s == [] || !cl.isSpace(s[|s| - 1]) then 0
    else 1 + TrailingSpaces(cl, s[..|s| - 1])
  }

  ghost predicate NoDoubleSpace(cl: Classes, s: string) {
    forall i :: 0 <= i < |s| - 1 ==> !(cl.isSpace(s[i]) && cl.isSpace(s[i + 1]))
  }

  /** `s.strip()`: the slice between the leading and the trailing whitespace. */
  function Strip(cl: Classes, s: string): (r: string)
    ensures exists i, j ::
      && 0 <= i <= j <= |s| && r == s[i..j]
      && (forall k :: 0 <= k < i ==> cl.isSpace(s[k]))
      && (forall k :: j <= k < |s| ==> cl.isSpace(s[k]))
    ensures |r| <= |s|
    ensures |r| == 0 || (!cl.isSpace(r[0]) && !cl.isSpace(r[|r| - 1]))
    ensures |r| == 0 <==> forall i :: 0 <= i < |s| ==> cl.isSpace(s[i])
    ensures forall i :: 0 <= i < |r| ==> r[i] in s
    ensures NoDoubleSpace(cl, s) ==> NoDoubleSpace(cl, r)
  {
    var i := RunLength(cl, Space, s);
    var j := |s| - TrailingSpaces(cl, s);
    if i < j then s[i..j]
    else
      assert s[i..i] == [];
      []
  }

  /** Stripping text that neither starts nor ends with whitespace returns it
      whole; in particular strip is idempotent. */
  lemma StripKeepsTrimmed(cl: Classes, s: string)
    requires |s| == 0 || (!cl.isSpace(s[0]) && !cl.isSpace(s[|s| - 1]))
    ensures Strip(cl, s) == s
  {
    if |s| > 0 {
      assert RunLength(cl, Space, s) == 0;
      assert TrailingSpaces(cl, s) == 0;
      assert s[0..|s|] == s;
    }
  }

  // ---------------------------------------------------------------------
  // Reference definitions the regex passes are proved against
  // ---------------------------------------------------------------------

  /** The characters a one-character deletion pass keeps. */
  datatype Keep = WordOrSpace | AsciiOnly

  predicate Kept(cl: Classes, k: Keep, c: char) {
    match k
    case WordOrSpace => cl.isWord(c) || cl.isSpace(c)
    case AsciiOnly => IsAscii(c)
  }

  /** The subsequence of `s` whose characters `k` keeps. */
  function Filter(cl: Classes, k: Keep, s: string): (r: string)
    ensures |r| <= |s|
    ensures forall c :: c in r ==> c in s && Kept(cl, k, c)
    ensures (forall i :: 0 <= i < |s| ==> Kept(cl, k, s[i])) ==> r == s
  {
    if s == [] then []
    else if Kept(cl, k, s[0]) then [s[0]] + Filter(cl, k, s[1..])
    else Filter(cl, k, s[1..])
  }

  /** Drops one leading whitespace character, if there is one. */
  function DropSpace(cl: Classes, s: string): (r: string)
    ensures |r| <= |s|
    ensures s != [] && cl.isSpace(s[0]) ==> r == s[1..]
    ensures |s| == 0 || !cl.isSpace(s[0]) ==> r == s
  {
    if s != [] && cl.isSpace(s[0]) then s[1..] else s
  }

  /** Whitespace squeezed one character at a time, from the right: a
      whitespace character becomes a space that absorbs the space the rest
      of the text starts with. */
  function Squeeze(cl: Classes, s: string): (r: string)
    ensures |r| <= |s|
    ensures forall i :: 0 <= i < |r| ==> r[i] == ' ' || (r[i] in s && !cl.isSpace(r[i]))
    ensures NoDoubleSpace(cl, r)
    ensures r != [] && s != [] && !cl.isSpace(s[0]) ==> r[0] == s[0]
  {
    if s == [] then []
    else if cl.isSpace(s[0]) then [' '] + DropSpace(cl, Squeeze(cl, s[1..]))
    else [s[0]] + Squeeze(cl, s[1..])
  }

  // ---------------------------------------------------------------------
  // Each regex pass against its reference definition
  // ---------------------------------------------------------------------

  /** Pass 5 deletes exactly the characters that are neither `\w` nor `\s`. */
  lemma {:induction false} SymbolPassIsFilter(cl: Classes, s: string)
    ensures Sub(cl, NotWordOrSpace, "", s) == Filter(cl, WordOrSpace, s)
    decreases |s|
  {
    if s != [] {
      SymbolPassIsFilter(cl, s[1..]);
    }
  }

  /** Dropping a prefix of characters that are not kept changes nothing. */
  lemma {:induction false} FilterSkipsDropped(cl: Classes, k: Keep, s: string, n: nat)
    requires n <= |s|
    requires forall i :: 0 <= i < n ==> !Kept(cl, k, s[i])
    ensures Filter(cl, k, s) == Filter(cl, k, s[n..])
    decreases n
  {
    if n > 0 {
      FilterSkipsDropped(cl, k, s[1..], n - 1);
      assert s[1..][n - 1..] == s[n..];
    }
  }

  /** Pass 6 deletes whole runs of non-ASCII characters, which is the same as
      deleting every non-ASCII character: nothing is put in their place. */
  lemma {:induction false} NonAsciiPassIsFilter(cl: Classes, s: string)
    ensures Sub(cl, NonAsciiRun, "", s) == Filter(cl, AsciiOnly, s)
    decreases |s|
  {
    if s != [] {
      var n := MatchLen(cl, NonAsciiRun, s);
      if n > 0 {
        NonAsciiPassIsFilter(cl, s[n..]);
        FilterSkipsDropped(cl, AsciiOnly, s, n);
      } else {
        NonAsciiPassIsFilter(cl, s[1..]);
      }
    }
  }

  /** No pass of pattern Hashtag can match where there is no '#'. */
  lemma HashtagPassWithoutHash(cl: Classes, s: string)
    requires '#' !in s
    ensures Sub(cl, Hashtag, "", s) == s
  {
    forall i | 0 <= i < |s| ensures MatchLen(cl, Hashtag, s[i..]) == 0 {
      assert s[i..][0] == s[i];
    }
    SubWithoutMatchIsIdentity(cl, Hashtag, "", s);
  }

  /** Passes 5-7 keep exactly the ASCII word and whitespace characters, in
      order; the hashtag pass is dead, because pass 5 already removed every
      '#'. */
  lemma DropSymbolsIsFilter(cl: Classes, s: string)
    requires Agrees(cl)
    ensures var t := Sub(cl, NonAsciiRun, "", Sub(cl, NotWordOrSpace, "", s));
      && Sub(cl, Hashtag, "", t) == t
      && DropSymbols(cl, s) == Filter(cl, AsciiOnly, Filter(cl, WordOrSpace, s))
  {
    var t5 := Sub(cl, NotWordOrSpace, "", s);
    var t := Sub(cl, NonAsciiRun, "", t5);
    SymbolPassIsFilter(cl, s);
    NonAsciiPassIsFilter(cl, t5);
    assert IsAscii('#') && !cl.isWord('#') && !cl.isSpace('#');
    HashtagPassWithoutHash(cl, t);
  }

  /** Skipping the rest of a whitespace run: squeezing from any point inside
      the run, minus the space that the run's first character supplies, is
      squeezing what follows the run. */
  lemma {:induction false} SqueezeInsideRun(cl: Classes, s: string, k: nat, n: nat)
    requires cl.isSpace(' ')
    requires 1 <= k <= n <= |s|
    requires forall i :: 0 <= i < n ==> cl.isSpace(s[i])
    requires n < |s| ==> !cl.isSpace(s[n])
    ensures DropSpace(cl, Squeeze(cl, s[k..])) == Squeeze(cl, s[n..])
    decreases n - k
  {
    if k < n {
      SqueezeInsideRun(cl, s, k + 1, n);
      assert s[k..][1..] == s[k + 1..];
    }
  }

  /** Pass 8 (`\s+` to one space) agrees with the character-at-a-time squeeze. */
  lemma {:induction false} CollapseIsSqueeze(cl: Classes, s: string)
    requires cl.isSpace(' ')
    ensures Sub(cl, SpaceRun, " ", s) == Squeeze(cl, s)
    decreases |s|
  {
    if s != [] {
      var n := MatchLen(cl, SpaceRun, s);
      if n > 0 {
        CollapseIsSqueeze(cl, s[n..]);
        SqueezeInsideRun(cl, s, 1, n);
      } else {
        CollapseIsSqueeze(cl, s[1..]);
      }
    }
  }

  // ---------------------------------------------------------------------
  // Pass 4 cannot change the result
  // ---------------------------------------------------------------------

  /** What passes 5-7 leave, by the lemma DropSymbolsIsFilter. */
  function CleanChars(cl: Classes, s: string): (r: string)
    ensures forall c :: c in r ==> c in s && IsAscii(c) && (cl.isWord(c) || cl.isSpace(c))
  {
    Filter(cl, AsciiOnly, Filter(cl, WordOrSpace, s))
  }

  lemma CleanCharsCons(cl: Classes, c: char, s: string)
    ensures CleanChars(cl, [c] + s) ==
      (if IsAscii(c) && (cl.isWord(c) || cl.isSpace(c)) then [c] else []) + CleanChars(cl, s)
  {
    assert ([c] + s)[1..] == s;
    if cl.isWord(c) || cl.isSpace(c) {
      assert ([c] + Filter(cl, WordOrSpace, s))[1..] == Filter(cl, WordOrSpace, s);
    }
  }

  lemma SqueezeCons(cl: Classes, c: char, s: string)
    ensures Squeeze(cl, [c] + s) ==
      if cl.isSpace(c) then [' '] + DropSpace(cl, Squeeze(cl, s)) else [c] + Squeeze(cl, s)
  {
    assert ([c] + s)[1..] == s;
  }

  /** A character in front of two texts that squeeze alike keeps them alike. */
  lemma CopyKeepsSqueeze(cl: Classes, c: char, x: string, y: string)
    requires Squeeze(cl, CleanChars(cl, x)) == Squeeze(cl, CleanChars(cl, y))
    ensures Squeeze(cl, CleanChars(cl, [c] + x)) == Squeeze(cl, CleanChars(cl, [c] + y))
  {
    CleanCharsCons(cl, c, x);
    CleanCharsCons(cl, c, y);
    if IsAscii(c) && (cl.isWord(c) || cl.isSpace(c)) {
      SqueezeCons(cl, c, CleanChars(cl, x));
      SqueezeCons(cl, c, CleanChars(cl, y));
    }
  }

  /** Passes 5-7 keep a line break. */
  lemma CleanCharsLineBreak(cl: Classes, y: string)
    requires Agrees(cl)
    ensures CleanChars(cl, ['\r', '\n'] + y) == ['\r', '\n'] + CleanChars(cl, y)
  {
    assert ['\r', '\n'] + y == ['\r'] + (['\n'] + y);
    CleanCharsCons(cl, '\r', ['\n'] + y);
    CleanCharsCons(cl, '\n', y);
  }

  /** A line break squeezes to one space, as a single space does. */
  lemma SqueezeLineBreak(cl: Classes, z: string)
    requires Agrees(cl)
    ensures Squeeze(cl, ['\r', '\n'] + z) == Squeeze(cl, [' '] + z)
  {
    assert ['\r', '\n'] + z == ['\r'] + (['\n'] + z);
    SqueezeCons(cl, '\r', ['\n'] + z);
    SqueezeCons(cl, '\n', z);
    SqueezeCons(cl, ' ', z);
  }

  /** " " and "\r\n" in front of two texts that squeeze alike squeeze alike. */
  lemma LineBreakKeepsSqueeze(cl: Classes, x: string, y: string)
    requires Agrees(cl)
    requires Squeeze(cl, CleanChars(cl, x)) == Squeeze(cl, CleanChars(cl, y))
    ensures Squeeze(cl, CleanChars(cl, [' '] + x)) == Squeeze(cl, CleanChars(cl, ['\r', '\n'] + y))
  {
    assert cl.isSpace(' ');
    CopyKeepsSqueeze(cl, ' ', x, y);
    CleanCharsCons(cl, ' ', y);
    CleanCharsLineBreak(cl, y);
    SqueezeLineBreak(cl, CleanChars(cl, y));
  }

  /** Turning "\r\n" into " " before the filters leaves the squeezed text
      unchanged: both forms are one whitespace run or part of one. */
  lemma {:induction false} JoinLinesIsInvisible(cl: Classes, t: string)
    requires Agrees(cl)
    ensures Squeeze(cl, CleanChars(cl, JoinLines(cl, t))) == Squeeze(cl, CleanChars(cl, t))
    decreases |t|
  {
    if t != [] {
      if MatchLen(cl, Crlf, t) > 0 {
        JoinLinesIsInvisible(cl, t[2..]);
        assert t == ['\r', '\n'] + t[2..];
        LineBreakKeepsSqueeze(cl, JoinLines(cl, t[2..]), t[2..]);
      } else {
        JoinLinesIsInvisible(cl, t[1..]);
        assert t == [t[0]] + t[1..];
        CopyKeepsSqueeze(cl, t[0], JoinLines(cl, t[1..]), t[1..]);
      }
    }
  }

  /** Pass 4 (line breaks to spaces) is redundant: dropping it from the
      pipeline gives the same result on every input. */
  lemma CrlfPassIsRedundant(cl: Classes, text: string)
    requires Agrees(cl)
    ensures CleanResume(cl, text) == Normalize(cl, DropSymbols(cl, StripMarkup(cl, text)))
  {
    var t := StripMarkup(cl, text);
    assert cl.isSpace(' ');
    DropSymbolsIsFilter(cl, JoinLines(cl, t));
    DropSymbolsIsFilter(cl, t);
    CollapseIsSqueeze(cl, CleanChars(cl, JoinLines(cl, t)));
    CollapseIsSqueeze(cl, CleanChars(cl, t));
    JoinLinesIsInvisible(cl, t);
  }

  // ---------------------------------------------------------------------
  // What every cleaned text looks like
  // ---------------------------------------------------------------------

  /** The last two stages, read through their reference definitions. */
  lemma CleanResumeIsStripSqueeze(cl: Classes, text: string)
    requires Agrees(cl)
    ensures var t := JoinLines(cl, StripMarkup(cl, text));
      CleanResume(cl, text) == Strip(cl, Squeeze(cl, CleanChars(cl, t)))
  {
    var t := JoinLines(cl, StripMarkup(cl, text));
    DropSymbolsIsFilter(cl, t);
    assert cl.isSpace(' ');
    CollapseIsSqueeze(cl, CleanChars(cl, t));
  }

  /** Only ASCII letters, digits, '_' and ' ' survive cleaning. */
  lemma CleanResumeAlphabet(cl: Classes, text: string)
    requires Agrees(cl)
    ensures forall i :: 0 <= i < |CleanResume(cl, text)| ==>
      AsciiWord(CleanResume(cl, text)[i]) || CleanResume(cl, text)[i] == ' '
  {
    var t := JoinLines(cl, StripMarkup(cl, text));
    CleanResumeIsStripSqueeze(cl, text);
    var q := Squeeze(cl, CleanChars(cl, t));
    forall i | 0 <= i < |q| ensures AsciiWord(q[i]) || q[i] == ' ' {
      if q[i] != ' ' {
        assert q[i] in CleanChars(cl, t) && !cl.isSpace(q[i]);
      }
    }
  }

  /** Stripping a squeezed text leaves no space at either end and no two
      spaces in a row. */
  lemma StripSqueezeSpacing(cl: Classes, x: string)
    requires cl.isSpace(' ')
    ensures var r := Strip(cl, Squeeze(cl, x));
      && (|r| > 0 ==> r[0] != ' ' && r[|r| - 1] != ' ')
      && forall i :: 0 <= i < |r| - 1 ==> r[i] != ' ' || r[i + 1] != ' '
  {
    var r := Strip(cl, Squeeze(cl, x));
    assert NoDoubleSpace(cl, r);
  }

  /** The cleaned text has no space at either end and no two spaces in a row. */
  lemma CleanResumeSpacing(cl: Classes, text: string)
    requires Agrees(cl)
    ensures var r := CleanResume(cl, text);
      && (|r| > 0 ==> r[0] != ' ' && r[|r| - 1] != ' ')
      && forall i :: 0 <= i < |r| - 1 ==> r[i] != ' ' || r[i + 1] != ' '
  {
    var t := JoinLines(cl, StripMarkup(cl, text));
    CleanResumeIsStripSqueeze(cl, text);
    assert cl.isSpace(' ');
    StripSqueezeSpacing(cl, CleanChars(cl, t));
  }

  /** Text made only of whitespace (any whitespace, Unicode included) cleans
      to the empty string; so does the empty text. */
  lemma CleanResumeOfBlank(cl: Classes, text: string)
    requires Agrees(cl)
    requires forall i :: 0 <= i < |text| ==> cl.isSpace(text[i])
    ensures CleanResume(cl, text) == ""
  {
    assert cl.isSpace(' ');
    var t1 := Sub(cl, Url, "", text);
    var t2 := Sub(cl, RtOrCc, "", t1);
    var t3 := Sub(cl, Mention, "", t2);
    var t4 := JoinLines(cl, t3);
    var t5 := Sub(cl, NotWordOrSpace, "", t4);
    var t6 := Sub(cl, NonAsciiRun, "", t5);
    var t7 := Sub(cl, Hashtag, "", t6);
    var t8 := Sub(cl, SpaceRun, " ", t7);
    assert forall c :: c in t8 ==> cl.isSpace(c);
  }

  /** Passes 3-8 leave a word of ASCII letters, digits and '_' unchanged. */
  lemma LaterPassesKeepWord(cl: Classes, u: string)
    requires Agrees(cl)
    requires forall c :: c in u ==> AsciiWord(c)
    ensures Normalize(cl, DropSymbols(cl, JoinLines(cl, Sub(cl, Mention, "", u)))) == u
  {
    SubInert(cl, Mention, "", u);
    SubInert(cl, Crlf, " ", u);
    SubInert(cl, NotWordOrSpace, "", u);
    SubInert(cl, NonAsciiRun, "", u);
    SubInert(cl, Hashtag, "", u);
    SubInert(cl, SpaceRun, " ", u);
    if u != [] {
      assert u[0] in u && u[|u| - 1] in u;
    }
  }

  /** On a single word of ASCII letters, digits and '_', only the "RT|cc"
      pass does anything: the URL pass needs whitespace, and the later
      passes find nothing to delete or squeeze. */
  lemma CleanResumeOfWord(cl: Classes, w: string)
    requires Agrees(cl)
    requires forall c :: c in w ==> AsciiWord(c)
    ensures CleanResume(cl, w) == Sub(cl, RtOrCc, "", w)
  {
    assert Sub(cl, Url, "", w) == w by {
      assert [] + w == w;
      UrlPassKeepsSpacelessTail(cl, [], w);
    }
    var u := Sub(cl, RtOrCc, "", w);
    assert forall c :: c in u ==> AsciiWord(c);
    LaterPassesKeepWord(cl, u);
  }
}
