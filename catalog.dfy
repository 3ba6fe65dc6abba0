/**
 * The RetroRewindVersion.txt catalog: one update per '\n'-line, written
 * `<version> <url> <path> <description...>`. GetAllVersionData turns the
 * text into entries; GetLatestVersionString and IsRRUpToDate read only
 * the first token of its last line.
 */
module Catalog {
  import opened Wrappers
  import opened Text
  import opened Versions

  /** The tuple (Version, Url, Path, Description) of the source. */
  datatype Entry = Entry(version: string, url: string, path: string, description: string)

  /** What GetLatestVersionString returns when fetching the catalog throws. */
  const FetchFailed := "Failed to check for updates"

  /**
   * One line: `line.Split(new[] { ' ' }, 4)`; fewer than four parts skip the
   * line, otherwise every part is trimmed.
   */
  function ParseLine(line: string): Option<Entry>
  {
    var parts := SplitAtMost(line, ' ', 4);
    if |parts| < 4 then None
    else Some(Entry(Trim(parts[0]), Trim(parts[1]), Trim(parts[2]), Trim(parts[3])))
  }

  /** A line survives exactly when it holds at least three spaces. */
  lemma ParseLineSurvives(line: string)
    ensures ParseLine(line).Some? <==> multiset(line)[' '] >= 3
  {
    SplitAtMostCount(line, ' ', 4);
  }

  function LineEntries(line: string): seq<Entry>
  {
    match ParseLine(line)
    case Some(e) => [e]
    case None => []
  }

  /** The entries of the surviving lines, in line order. */
  function ParseLines(lines: seq<string>): (r: seq<Entry>)
    ensures |r| <= |lines|
  {
    if lines == [] then []
    else ParseLines(lines[..|lines| - 1]) + LineEntries(lines[|lines| - 1])
  }

  /** `text.Split(new[] { '\n' }, StringSplitOptions.RemoveEmptyEntries)`. */
  function Lines(text: string): seq<string>
  {
    NonEmpty(Split(text, '\n'))
  }

  /** What GetAllVersionData returns for a fetched catalog text. */
  function ParseCatalog(text: string): seq<Entry>
  {
    ParseLines(Lines(text))
  }

  /**
   * GetAllVersionData: None where the HTTP fetch throws (the exception
   * leaves the method); otherwise the loop appends one entry per surviving
   * line.
   */
  method GetAllVersionData(fetched: Option<string>) returns (versions: Option<seq<Entry>>)
    ensures fetched.None? ==> versions.None?
    ensures fetched.Some? ==> versions == Some(ParseCatalog(fetched.value))
  {
    if fetched.None? {
      return None;
    }
    var lines := Lines(fetched.value);
    var found: seq<Entry> := [];
    for i := 0 to |lines|
      invariant found == ParseLines(lines[..i])
    {
      assert lines[..i + 1][..i] == lines[..i];
      assert ParseLines(lines[..i + 1]) == found + LineEntries(lines[i]);
      var parts := SplitAtMost(lines[i], ' ', 4);
      if |parts| < 4 {
        continue;
      }
      found := found + [Entry(Trim(parts[0]), Trim(parts[1]), Trim(parts[2]), Trim(parts[3]))];
    }
    assert lines[..|lines|] == lines;
    return Some(found);
  }

  /**
   * A line of the catalog format parses to its four trimmed fields; the
   * description keeps its inner spaces.
   */
  lemma ParseLineFields(version: string, url: string, path: string, description: string)
    requires ' ' !in version && ' ' !in url && ' ' !in path
    ensures ParseLine(version + " " + url + " " + path + " " + description)
         == Some(Entry(Trim(version), Trim(url), Trim(path), Trim(description)))
  {
    var line := version + " " + url + " " + path + " " + description;
    assert line == version + [' '] + url + [' '] + path + [' '] + description;
    SplitFields(version, url, path, description, ' ');
  }

  /** The first three separators of a line separate its four fields. */
  lemma SplitFields(a: string, b: string, c: string, d: string, sep: char)
    requires sep !in a && sep !in b && sep !in c
    ensures SplitAtMost(a + [sep] + b + [sep] + c + [sep] + d, sep, 4) == [a, b, c, d]
  {
    var cd := c + [sep] + d;
    SplitAtMostFirst(c, sep, d, 2);
    assert SplitAtMost(cd, sep, 2) == [c, d];
    var bcd := b + [sep] + cd;
    SplitAtMostFirst(b, sep, cd, 3);
    assert SplitAtMost(bcd, sep, 3) == [b, c, d];
    var abcd := a + [sep] + bcd;
    SplitAtMostFirst(a, sep, bcd, 4);
    assert SplitAtMost(abcd, sep, 4) == [a, b, c, d];
    JoinedFourAssociates(a, b, c, d, [sep]);
  }

  /** Conversely, every surviving line is its four parts joined by single spaces. */
  lemma ParseLineShape(line: string)
    requires ParseLine(line).Some?
    ensures var p := SplitAtMost(line, ' ', 4);
      && |p| == 4
      && line == p[0] + " " + p[1] + " " + p[2] + " " + p[3]
      && ' ' !in p[0] && ' ' !in p[1] && ' ' !in p[2]
      && ParseLine(line).value == Entry(Trim(p[0]), Trim(p[1]), Trim(p[2]), Trim(p[3]))
  {
    var p := SplitAtMost(line, ' ', 4);
    JoinSplitAtMost(line, ' ', 4);
    JoinFour(p, ' ');
  }

  lemma {:induction false} ParseLinesConcat(a: seq<string>, b: seq<string>)
    ensures ParseLines(a + b) == ParseLines(a) + ParseLines(b)
    decreases |b|
  {
    if b == [] {
      assert a + b == a;
    } else {
      var b', last := b[..|b| - 1], b[|b| - 1];
      assert (a + b)[..|a + b| - 1] == a + b' && (a + b)[|a + b| - 1] == last;
      ParseLinesConcat(a, b');
      ConcatAssociates(ParseLines(a), ParseLines(b'), LineEntries(last));
    }
  }

  /**
   * Parsing follows line order: the entries of two texts joined by a line
   * break are the entries of the first followed by those of the second.
   */
  lemma CatalogConcat(a: string, b: string)
    ensures ParseCatalog(a + "\n" + b) == ParseCatalog(a) + ParseCatalog(b)
  {
    assert a + "\n" + b == a + ['\n'] + b;
    SplitConcat(a, '\n', b);
    NonEmptyConcat(Split(a, '\n'), Split(b, '\n'));
    ParseLinesConcat(Lines(a), Lines(b));
  }

  /** One line of text gives its own entry, or nothing when it is skipped. */
  lemma CatalogSingleLine(line: string)
    requires '\n' !in line
    ensures ParseCatalog(line) == LineEntries(line)
  {
    JoinSplit(line, '\n');
    var parts := Split(line, '\n');
    assert |parts| == 1 && parts[0] == line;
    if line == [] {
      assert ParseLine(line).None?;
    } else {
      assert Lines(line) == [line];
      assert ParseLines([line]) == ParseLines([]) + LineEntries(line);
    }
  }

  /** Empty lines, a trailing one included, contribute nothing. */
  lemma CatalogEmptyLine(a: string, b: string)
    ensures ParseCatalog(a + "\n\n" + b) == ParseCatalog(a + "\n" + b)
  {
    assert a + "\n\n" + b == a + "\n" + ("\n" + b);
    CatalogConcat(a, "\n" + b);
    assert "\n" + b == "" + "\n" + b;
    CatalogConcat("", b);
    CatalogSingleLine("");
    CatalogConcat(a, b);
  }

  /** Never more entries than non-empty lines, and every line kept is non-empty. */
  lemma CatalogBound(text: string)
    ensures |ParseCatalog(text)| <= |Lines(text)|
    ensures forall i :: 0 <= i < |Lines(text)| ==> Lines(text)[i] != [] && '\n' !in Lines(text)[i]
  {
  }

  /**
   * GetLatestVersionString: the first ' '-token of the last '\n'-line of the
   * fetched text, or the failure text when the fetch throws.
   */
  function LatestVersionString(fetched: Option<string>): (r: string)
    ensures fetched.None? ==> r == FetchFailed
    ensures fetched.Some? ==> ' ' !in r && '\n' !in r
  {
    match fetched
    case None => FetchFailed
    case Some(text) =>
      var lines := Split(text, '\n');
      var lastLine := lines[|lines| - 1];
      assert '\n' !in lastLine;
      var token := Split(lastLine, ' ')[0];
      assert forall k :: 0 <= k < |token| ==> token[k] in lastLine by {
        JoinSplit(lastLine, ' ');
        JoinHeadPrefix(Split(lastLine, ' '), ' ');
      }
      token
  }

  lemma JoinHeadPrefix(parts: seq<string>, sep: char)
    requires |parts| >= 1
    ensures parts[0] <= Join(parts, sep)
  {
  }

  /** Only the last line counts, whatever comes before it. */
  lemma LatestIsOnLastLine(body: string, line: string)
    requires '\n' !in line
    ensures LatestVersionString(Some(body + "\n" + line)) == LatestVersionString(Some(line))
  {
    assert body + "\n" + line == body + ['\n'] + line;
    SplitConcat(body, '\n', line);
    JoinSplit(line, '\n');
  }

  /** On the last line, the text up to the first space is the version. */
  lemma LatestIsFirstToken(token: string, rest: string)
    requires ' ' !in token && '\n' !in token && '\n' !in rest
    ensures LatestVersionString(Some(token + " " + rest)) == token
  {
    var line := token + " " + rest;
    assert line == token + [' '] + rest;
    assert '\n' !in line;
    JoinSplit(line, '\n');
    SplitConcat(token, ' ', rest);
    JoinSplit(token, ' ');
  }

  /** A catalog that ends with '\n' has an empty last line: the latest version reads as "". */
  lemma LatestAfterTrailingNewline(text: string)
    ensures LatestVersionString(Some(text + "\n")) == ""
  {
    assert text + "\n" == text + "\n" + "";
    LatestIsOnLastLine(text, "");
  }

  /** IsRRUpToDate: the trimmed installed version equals the trimmed latest one, as text. */
  function IsRRUpToDate(currentVersion: string, fetched: Option<string>): bool
  {
    Trim(currentVersion) == Trim(LatestVersionString(fetched))
  }

  /**
   * An example: the up-to-date test compares text, not versions. "3.2"
   * installed is not up to date against a latest "3.2.0", although the two
   * compare equal. The literals are pinned through `requires`.
   */
  lemma UpToDateIsTextual(installed: string, catalog: string, latest: string)
    requires installed == "3.2" && latest == "3.2.0" && catalog == "3.2.0 u p d"
    ensures LatestVersionString(Some(catalog)) == latest
    ensures Components(installed) == Some([3, 2]) && Components(latest) == Some([3, 2, 0])
    ensures ComparePadded([3, 2], [3, 2, 0]) == 0
    ensures !IsRRUpToDate(installed, Some(catalog))
  {
    ComponentsOfThreeTwo();
    CompareZeroPadding([3, 2], [0]);
    assert [3, 2] + [0] == [3, 2, 0];
    LatestOfSample(catalog, latest);
    DifferentCleanTexts(installed, latest);
  }

  /** An example: the latest version of the one-line catalog "3.2.0 u p d" is "3.2.0". */
  lemma LatestOfSample(catalog: string, latest: string)
    requires latest == "3.2.0" && catalog == "3.2.0 u p d"
    ensures LatestVersionString(Some(catalog)) == latest
  {
    var rest := "u p d";
    LatestIsFirstToken(latest, rest);
    assert catalog == latest + " " + rest;
  }

  /** An example: "3.2" and "3.2.0", already trimmed, stay different texts. */
  lemma DifferentCleanTexts(installed: string, latest: string)
    requires installed == "3.2" && latest == "3.2.0"
    ensures Trim(installed) != Trim(latest)
  {
    TrimClean(installed);
    TrimClean(latest);
  }

  lemma ComponentsOfThreeTwo()
    ensures Components("3.2") == Some([3, 2])
    ensures Components("3.2.0") == Some([3, 2, 0])
  {
    ComponentsOfTwoDigits('3', '2');
    ComponentsOfThreeDigits('3', '2', '0');
  }

  /**
   * When the catalog cannot be fetched the latest version reads as the
   * failure text, which no parseable installed version equals.
   */
  lemma FetchFailureNeverUpToDate(currentVersion: string, fetched: Option<string>)
    requires IsVersion(currentVersion) && fetched.None?
    ensures !IsRRUpToDate(currentVersion, fetched)
  {
    VersionIsNotFailureText(currentVersion, fetched);
    FailureTextIsTrimmed(fetched);
  }

  lemma VersionIsNotFailureText(currentVersion: string, fetched: Option<string>)
    requires IsVersion(currentVersion) && fetched.None?
    ensures Trim(currentVersion) != LatestVersionString(fetched)
  {
    VersionChars(currentVersion);
    var failed := LatestVersionString(fetched);
    assert failed[0] == 'F';
    assert 'F' !in currentVersion;
  }

  /** A trimmed text that does not start with 'F' is never the failure text. */
  lemma FailureTextSeparates(s: string, fetched: Option<string>)
    requires fetched.None? && Trim(s) == s && s != [] && s[0] != 'F'
    ensures !IsRRUpToDate(s, fetched)
  {
    FailureTextIsTrimmed(fetched);
    assert LatestVersionString(fetched)[0] == 'F';
  }

  lemma FailureTextIsTrimmed(fetched: Option<string>)
    requires fetched.None?
    ensures Trim(LatestVersionString(fetched)) == LatestVersionString(fetched)
  {
    var failed := LatestVersionString(fetched);
    assert failed[0] == 'F';
    TrimClean(failed);
  }
}
