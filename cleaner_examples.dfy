/** Concrete runs of clean_resume, worked out pass by pass. They hold for
    every choice of Unicode classes that agrees with Python on ASCII. */
module CleanerExamples {
  import opened CharClasses
  import opened Regex
  import opened ResumeCleaner

  /** "RT" or "cc" at the front is a match of the second pass. */
  lemma RtCcMatchAtFront(cl: Classes, m: string, rest: string)
    requires m == "RT" || m == "cc"
    ensures MatchLen(cl, RtOrCc, m + rest) == 2
  {
    assert (m + rest)[..2] == m;
  }

  lemma AccountingText()
    ensures "Accounting" == "A" + ("cc" + "ounting")
    ensures "A" + "ounting" == "Aounting"
  {
  }

  lemma RtCcOunting(cl: Classes)
    ensures Sub(cl, RtOrCc, "", "cc" + "ounting") == "ounting"
  {
    RtCcMatchAtFront(cl, "cc", "ounting");
    SubReplacesFront(cl, RtOrCc, "", "cc", "ounting");
    SubInert(cl, RtOrCc, "", "ounting");
  }

  /** The "RT|cc" pass cuts letters out of ordinary words. */
  lemma RtCcInsideWords(cl: Classes)
    ensures Sub(cl, RtOrCc, "", "Accounting") == "Aounting"
  {
    AccountingText();
    SubInertPrefix(cl, RtOrCc, "", "A", "cc" + "ounting");
    RtCcOunting(cl);
  }

  /** ... and nothing later puts them back. */
  lemma CleanResumeOfAccounting(cl: Classes)
    requires Agrees(cl)
    ensures CleanResume(cl, "Accounting") == "Aounting"
  {
    RtCcInsideWords(cl);
    CleanResumeOfWord(cl, "Accounting");
  }

  lemma RrttText()
    ensures "RRTT" == ['R'] + ("RT" + "T")
    ensures ['R'] + "T" == "RT"
    ensures "RT" == "RT" + ""
  {
  }

  /** Deleting "RT" can bring an "R" and a "T" together. */
  lemma RtCcCreatesMatch(cl: Classes)
    ensures Sub(cl, RtOrCc, "", "RRTT") == "RT"
  {
    RrttText();
    assert MatchLen(cl, RtOrCc, ['R'] + ("RT" + "T")) == 0 by {
      assert (['R'] + ("RT" + "T"))[1] == 'R';
    }
    SubCopiesFront(cl, RtOrCc, "", 'R', "RT" + "T");
    RtCcMatchAtFront(cl, "RT", "T");
    SubReplacesFront(cl, RtOrCc, "", "RT", "T");
    SubInert(cl, RtOrCc, "", "T");
  }

  lemma RtCcDeletesRt(cl: Classes)
    ensures Sub(cl, RtOrCc, "", "RT") == ""
  {
    RrttText();
    RtCcMatchAtFront(cl, "RT", "");
    SubReplacesFront(cl, RtOrCc, "", "RT", "");
  }

  /** clean_resume is not idempotent: cleaning "RRTT" gives "RT", and
      cleaning that again gives "". */
  lemma CleanResumeNotIdempotent(cl: Classes)
    requires Agrees(cl)
    ensures CleanResume(cl, "RRTT") == "RT"
    ensures CleanResume(cl, "RT") == ""
    ensures CleanResume(cl, CleanResume(cl, "RRTT")) != CleanResume(cl, "RRTT")
  {
    RtCcCreatesMatch(cl);
    CleanResumeOfWord(cl, "RRTT");
    RtCcDeletesRt(cl);
    CleanResumeOfWord(cl, "RT");
  }

  lemma NbspText()
    ensures "a\U{00A0}b" == ['a'] + (['\U{00A0}'] + "b")
    ensures ['a'] + "b" == "ab"
    ensures "b" == ['b'] + ""
  {
  }

  lemma NbspChars()
    ensures forall c :: c in "a\U{00A0}b" ==> c == 'a' || c == '\U{00A0}' || c == 'b'
  {
  }

  /** Passes 1-4 find nothing in "a", a no-break space, "b". */
  lemma NbspMarkupInert(cl: Classes)
    ensures JoinLines(cl, StripMarkup(cl, "a\U{00A0}b")) == "a\U{00A0}b"
  {
    var s := "a\U{00A0}b";
    NbspChars();
    SubInert(cl, Url, "", s);
    SubInert(cl, RtOrCc, "", s);
    SubInert(cl, Mention, "", s);
    SubInert(cl, Crlf, " ", s);
  }

  /** Passes 5-7 drop the no-break space, whether or not the Unicode tables
      count it as whitespace. */
  lemma NbspDropped(cl: Classes)
    requires Agrees(cl)
    ensures DropSymbols(cl, "a\U{00A0}b") == "ab"
  {
    NbspText();
    DropSymbolsIsFilter(cl, "a\U{00A0}b");
    CleanCharsCons(cl, 'a', ['\U{00A0}'] + "b");
    CleanCharsCons(cl, '\U{00A0}', "b");
    CleanCharsCons(cl, 'b', "");
    assert AsciiWord('a') && AsciiWord('b');
  }

  /** Pass 8 and the strip leave "ab" alone. */
  lemma NormalizeOfAb(cl: Classes)
    requires Agrees(cl)
    ensures Normalize(cl, "ab") == "ab"
  {
    assert forall c :: c in "ab" ==> c == 'a' || c == 'b';
    assert !cl.isSpace('a') && !cl.isSpace('b');
    SubInert(cl, SpaceRun, " ", "ab");
    StripKeepsTrimmed(cl, "ab");
  }

  /** A non-ASCII character is deleted, not turned into a space, so the
      words on either side of it are joined. */
  lemma NonAsciiJoinsWords(cl: Classes)
    requires Agrees(cl)
    ensures CleanResume(cl, "a\U{00A0}b") == "ab"
  {
    NbspMarkupInert(cl);
    NbspDropped(cl);
    NormalizeOfAb(cl);
  }

  lemma NbspUrlText()
    ensures "httpx\U{00A0}y" == "http" + "x" + ['\U{00A0}'] + "y"
    ensures "httpx\U{00A0}y" == [] + "httpx\U{00A0}y"
    ensures forall c :: c in "httpx\U{00A0}y" ==> c == '\U{00A0}' || (IsAscii(c) && !AsciiSpace(c))
  {
  }

  /** Where a URL ends depends on the Unicode whitespace table: if U+00A0
      counts as `\s`, as it does in Python, pass 1 deletes "httpx" and the
      no-break space; if it does not, pass 1 finds no URL at all. */
  lemma UrlEndDependsOnSpaceTable(cl: Classes)
    requires Agrees(cl)
    ensures cl.isSpace('\U{00A0}') ==> Sub(cl, Url, "", "httpx\U{00A0}y") == "y"
    ensures !cl.isSpace('\U{00A0}') ==> Sub(cl, Url, "", "httpx\U{00A0}y") == "httpx\U{00A0}y"
  {
    NbspUrlText();
    assert "x" == ['x'];
    if cl.isSpace('\U{00A0}') {
      UrlPassRemovesUrl(cl, "x", '\U{00A0}', "y");
      SubInert(cl, Url, "", "y");
    } else {
      UrlPassKeepsSpacelessTail(cl, [], "httpx\U{00A0}y");
    }
  }
}
