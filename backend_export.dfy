/** The file name of the CSV download of `get_results` (backend/app.py):
    the poll title reduced to letters, digits, spaces, `_` and `-`,
    stripped, spaces turned into `_`, suffixed with `-results.csv`, and
    finally stripped of every non-ASCII character. */
module Export {
  import opened Base

  predicate IsAsciiAlnum(c: char) {
    'a' <= c <= 'z' || 'A' <= c <= 'Z' || '0' <= c <= '9'
  }

  /** The Cyrillic letters А..я together with Ё and ё. */
  predicate IsCyrillicLetter(c: char) {
    'А' <= c <= 'я' || c == 'Ё' || c == 'ё'
  }

  /** Python's `str.isalnum`, restricted to ASCII letters and digits and
      the Cyrillic alphabet. */
  predicate IsAlnum(c: char) {
    IsAsciiAlnum(c) || IsCyrillicLetter(c)
  }

  predicate KeptInTitle(c: char) {
    IsAlnum(c) || c == ' ' || c == '_' || c == '-'
  }

  predicate IsAscii(c: char) {
    c as int < 128
  }

  function SpacesToUnderscores(s: string): (r: string)
    ensures |r| == |s|
    ensures forall i :: 0 <= i < |s| ==> r[i] == (if s[i] == ' ' then '_' else s[i])
  {
    seq(|s|, i requires 0 <= i < |s| => if s[i] == ' ' then '_' else s[i])
  }

  /** The name used for an empty title, and for an empty safe title. */
  const DefaultTitle: string := "poll"

  /** The filter, strip and replace steps of `safe_title`. */
  function Sanitize(source: string): string {
    SpacesToUnderscores(Trim(Filter(source, KeptInTitle)))
  }

  /** `safe_title`. */
  function SafeTitle(title: string): string {
    Sanitize(if title == "" then DefaultTitle else title)
  }

  const Suffix: string := "-results.csv"

  /** `filename`, before the ASCII pass. */
  function FileName(title: string): string {
    var safe := SafeTitle(title);
    (if safe == "" then DefaultTitle else safe) + Suffix
  }

  /** `ascii_filename`: `encode("ascii", "ignore")`, falling back to
      `results.csv` when nothing is left. */
  function DownloadName(title: string): string {
    var ascii := Filter(FileName(title), IsAscii);
    if ascii == "" then "results.csv" else ascii
  }

  /** The characters a safe title may hold. */
  predicate TitleChar(c: char) {
    IsAlnum(c) || c == '_' || c == '-'
  }

  /** The characters the downloaded name may hold before the suffix. */
  predicate AsciiTitleChar(c: char) {
    IsAsciiAlnum(c) || c == '_' || c == '-'
  }

  lemma SafeTitleChars(title: string)
    ensures forall i :: 0 <= i < |SafeTitle(title)| ==> TitleChar(SafeTitle(title)[i])
  {
    var source := if title == "" then DefaultTitle else title;
    var kept := Filter(source, KeptInTitle);
    var t := Trim(kept);
    TrimShape(kept);
    forall i | 0 <= i < |t| ensures KeptInTitle(t[i]) {
      assert t[i] == kept[|kept| - |TrimStart(kept)| + i];
    }
  }

  lemma SuffixIsAscii()
    ensures Filter(Suffix, IsAscii) == Suffix
  {
    FilterAllTrue(Suffix, IsAscii);
  }

  /** The ASCII pass leaves the file name as the ASCII part of its head
      followed by the whole suffix. */
  lemma DownloadNameSplit(title: string)
    ensures var safe := SafeTitle(title);
      DownloadName(title) == Filter(if safe == "" then DefaultTitle else safe, IsAscii) + Suffix
  {
    var safe := SafeTitle(title);
    var head := if safe == "" then DefaultTitle else safe;
    FilterAppend(head, Suffix, IsAscii);
    SuffixIsAscii();
  }

  lemma AsciiOfTitleChars(s: string)
    requires forall i :: 0 <= i < |s| ==> TitleChar(s[i])
    ensures forall i :: 0 <= i < |Filter(s, IsAscii)| ==> AsciiTitleChar(Filter(s, IsAscii)[i])
  {
    var h := Filter(s, IsAscii);
    forall i | 0 <= i < |h| ensures AsciiTitleChar(h[i]) {
      assert h[i] in s;
    }
  }

  /** Whatever the title, the download name ends in `-results.csv`, holds
      only ASCII letters, digits, `_` and `-` before it, and the
      `results.csv` fallback is never taken. */
  lemma DownloadNameShape(title: string)
    ensures Filter(FileName(title), IsAscii) != ""
    ensures |DownloadName(title)| >= |Suffix|
    ensures DownloadName(title)[|DownloadName(title)| - |Suffix|..] == Suffix
    ensures forall i :: 0 <= i < |DownloadName(title)| - |Suffix| ==> AsciiTitleChar(DownloadName(title)[i])
  {
    var safe := SafeTitle(title);
    var head := if safe == "" then DefaultTitle else safe;
    DownloadNameSplit(title);
    SafeTitleChars(title);
    assert forall i :: 0 <= i < |head| ==> TitleChar(head[i]);
    AsciiOfTitleChars(head);
    var h := Filter(head, IsAscii);
    assert DownloadName(title) == h + Suffix;
    assert Filter(FileName(title), IsAscii) == DownloadName(title);
  }

  lemma TrimWithoutSpace(s: string)
    requires s != [] ==> !IsSpace(s[0]) && !IsSpace(s[|s| - 1])
    ensures Trim(s) == s
  {
    assert TrimStart(s) == s;
    assert TrimEnd(s) == s;
  }

  lemma UnderscoresWithoutSpace(s: string)
    requires forall i :: 0 <= i < |s| ==> s[i] != ' '
    ensures SpacesToUnderscores(s) == s
  {
  }

  /** A non-empty title of letters and digits is its own safe title. */
  lemma WordIsSafe(title: string)
    requires title != [] && forall i :: 0 <= i < |title| ==> IsAlnum(title[i])
    ensures SafeTitle(title) == title
  {
    FilterAllTrue(title, KeptInTitle);
    TrimWithoutSpace(title);
    UnderscoresWithoutSpace(title);
    assert Sanitize(title) == title;
  }

  /** A title made only of ASCII letters and digits is kept as it is. */
  lemma AsciiWordTitle(title: string)
    requires title != [] && forall i :: 0 <= i < |title| ==> IsAsciiAlnum(title[i])
    ensures DownloadName(title) == title + Suffix
  {
    WordIsSafe(title);
    DownloadNameSplit(title);
    FilterAllTrue(title, IsAscii);
  }

  /** A title written in Cyrillic letters only loses its name: the download
      is called just `-results.csv` (the safe title is non-empty, so the
      `poll` default is not used, and the ASCII pass then removes it). */
  lemma CyrillicTitle(title: string)
    requires title != [] && forall i :: 0 <= i < |title| ==> IsCyrillicLetter(title[i])
    ensures DownloadName(title) == Suffix
  {
    WordIsSafe(title);
    DownloadNameSplit(title);
    FilterAllFalse(title, IsAscii);
    assert [] + Suffix == Suffix;
  }

  lemma AllOfConcat(a: string, b: string, p: char -> bool)
    requires forall i :: 0 <= i < |a| ==> p(a[i])
    requires forall i :: 0 <= i < |b| ==> p(b[i])
    ensures forall i :: 0 <= i < |a + b| ==> p((a + b)[i])
  {
    forall i | 0 <= i < |a + b| ensures p((a + b)[i]) {
      if i >= |a| {
        assert (a + b)[i] == b[i - |a|];
      }
    }
  }

  lemma TwoWordKept(w1: string, w2: string)
    requires forall i :: 0 <= i < |w1| ==> IsAsciiAlnum(w1[i])
    requires forall i :: 0 <= i < |w2| ==> IsAsciiAlnum(w2[i])
    ensures Filter(w1 + " " + w2, KeptInTitle) == w1 + " " + w2
  {
    AllOfConcat(w1, " ", KeptInTitle);
    AllOfConcat(w1 + " ", w2, KeptInTitle);
    FilterAllTrue(w1 + " " + w2, KeptInTitle);
  }

  lemma TwoWordTrim(w1: string, w2: string)
    requires w1 != [] && !IsSpace(w1[0])
    requires w2 != [] && !IsSpace(w2[|w2| - 1])
    ensures Trim(w1 + " " + w2) == w1 + " " + w2
  {
    var title := w1 + " " + w2;
    assert title[0] == w1[0] && title[|title| - 1] == w2[|w2| - 1];
    TrimWithoutSpace(title);
  }

  lemma TwoWordUnderscores(w1: string, w2: string)
    requires forall i :: 0 <= i < |w1| ==> w1[i] != ' '
    requires forall i :: 0 <= i < |w2| ==> w2[i] != ' '
    ensures SpacesToUnderscores(w1 + " " + w2) == w1 + "_" + w2
  {
    var title := w1 + " " + w2;
    var joined := w1 + "_" + w2;
    forall i | 0 <= i < |title| ensures SpacesToUnderscores(title)[i] == joined[i] {
      if i < |w1| {
        assert title[i] == w1[i] && joined[i] == w1[i];
      } else if i > |w1| {
        assert title[i] == w2[i - |w1| - 1] && joined[i] == w2[i - |w1| - 1];
      }
    }
  }

  lemma TwoWordSafe(w1: string, w2: string)
    requires w1 != [] && forall i :: 0 <= i < |w1| ==> IsAsciiAlnum(w1[i])
    requires w2 != [] && forall i :: 0 <= i < |w2| ==> IsAsciiAlnum(w2[i])
    ensures SafeTitle(w1 + " " + w2) == w1 + "_" + w2
  {
    TwoWordKept(w1, w2);
    TwoWordTrim(w1, w2);
    TwoWordUnderscores(w1, w2);
    assert Sanitize(w1 + " " + w2) == w1 + "_" + w2;
  }

  /** Two ASCII words separated by one space are joined by `_`. */
  lemma TwoWordTitle(w1: string, w2: string)
    requires w1 != [] && forall i :: 0 <= i < |w1| ==> IsAsciiAlnum(w1[i])
    requires w2 != [] && forall i :: 0 <= i < |w2| ==> IsAsciiAlnum(w2[i])
    ensures DownloadName(w1 + " " + w2) == w1 + "_" + w2 + Suffix
  {
    TwoWordSafe(w1, w2);
    DownloadNameSplit(w1 + " " + w2);
    AllOfConcat(w1, "_", IsAscii);
    AllOfConcat(w1 + "_", w2, IsAscii);
    FilterAllTrue(w1 + "_" + w2, IsAscii);
  }
}
