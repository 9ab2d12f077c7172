/**
 * The header `save_trojan_file` writes in front of the filtered
 * configurations: a title, a rule of fifty `=`, the update time, the source
 * URL, another rule and an empty line.
 */
module ArtifactHeader {
  import opened Text
  import opened TrojanFilter

  // The constant texts below are written as concatenations of short
  // literals (the URL as host, path and query, the title as three pieces).
  // The value is the same; the pieces keep the solver's work on `!in` over
  // a literal small, and the lemmas at the end of this module reason about
  // them one piece at a time.

  /** The source URL of the Trojan subscription list, host, path and query. */
  const TrojanUrl: string := UrlHost + UrlPath + UrlQuery
  const UrlHost: string := "https://istanbulsydneyhotel.com"
  const UrlPath: string := "/blogs/site/sni.php"
  const UrlQuery: string := "?kind=trojan"

  const Title: string := "🚀 ПОДПИСКИ " + "TROJAN " + "(НАДЕЖНЫЙ ПРОТОКОЛ)"
  const UpdatedLabel: string := "📅 Обновлено: "
  const SourceLabel: string := "🔗 Источник: "

  /** A local date and time, as `datetime.now()` gives it. */
  datatype DateTime = DateTime(year: nat, month: nat, day: nat, hour: nat, minute: nat, second: nat)

  predicate ValidDateTime(t: DateTime)
  {
    1 <= t.year <= 9999 && 1 <= t.month <= 12 && 1 <= t.day <= 31 &&
    t.hour < 24 && t.minute < 60 && t.second < 60
  }

  /** The characters `strftime('%Y-%m-%d %H:%M:%S')` can produce. */
  predicate IsTimestampChar(c: char)
  {
    '0' <= c <= '9' || c == '-' || c == ':' || c == ' '
  }

  function Digit(d: nat): (c: char)
    requires d < 10
    ensures '0' <= c <= '9' && c as int - '0' as int == d
  {
    ('0' as int + d) as char
  }

  /** The number a string of decimal digits denotes. */
  function DigitsValue(s: string): nat
    requires forall k :: 0 <= k < |s| ==> '0' <= s[k] <= '9'
  {
    if |s| == 0 then 0
    else DigitsValue(s[..|s| - 1]) * 10 + (s[|s| - 1] as int - '0' as int)
  }

  /** The decimal numeral of `n`, without leading zeros. */
  function Decimal(n: nat): (r: string)
    ensures |r| >= 1 && (n > 0 ==> r[0] != '0')
    ensures forall k :: 0 <= k < |r| ==> '0' <= r[k] <= '9'
    ensures DigitsValue(r) == n
  {
    if n < 10 then [Digit(n)]
    else
      var r := Decimal(n / 10) + [Digit(n % 10)];
      assert r[..|r| - 1] == Decimal(n / 10);
      r
  }

  /** A number below 100 as two digits, zero-padded. */
  function TwoDigits(n: nat): (r: string)
    requires n < 100
    ensures |r| == 2 && forall k :: 0 <= k < 2 ==> '0' <= r[k] <= '9'
    ensures DigitsValue(r) == n
  {
    var r := [Digit(n / 10), Digit(n % 10)];
    assert r[..1] == [Digit(n / 10)] && [Digit(n / 10)][..0] == [];
    assert DigitsValue(r[..1]) == n / 10;
    r
  }

  /** `t.strftime('%Y-%m-%d %H:%M:%S')`. */
  function Timestamp(t: DateTime): (r: string)
    requires ValidDateTime(t)
    ensures |r| >= 15
    ensures forall k :: 0 <= k < |r| ==> IsTimestampChar(r[k])
  {
    Decimal(t.year) + "-" + TwoDigits(t.month) + "-" + TwoDigits(t.day) + " " +
    TwoDigits(t.hour) + ":" + TwoDigits(t.minute) + ":" + TwoDigits(t.second)
  }

  /** `"=" * n`. */
  function Repeat(c: char, n: nat): (r: string)
    ensures |r| == n && forall k :: 0 <= k < n ==> r[k] == c
  {
    if n == 0 then "" else [c] + Repeat(c, n - 1)
  }

  /** The delimiter line, fifty `=`. */
  const Rule: string := Repeat('=', 50)

  /** The six header lines, the last of them empty. */
  function HeaderLines(now: DateTime): (lines: seq<string>)
    requires ValidDateTime(now)
  {
    [Title, Rule, UpdatedLabel + Timestamp(now), SourceLabel + TrojanUrl, Rule, ""]
  }

  /** The header text, as the successive `+=` build it. */
  function Header(now: DateTime): string
    requires ValidDateTime(now)
  {
    Title + "\n" + Rule + "\n" + UpdatedLabel + Timestamp(now) + "\n" +
    SourceLabel + TrojanUrl + "\n" + Rule + "\n\n"
  }

  // ---------------------------------------------------------------------

  /** The header is its six lines joined, followed by a line break. */
  lemma HeaderAsLines(now: DateTime)
    requires ValidDateTime(now)
    ensures Header(now) == Join(HeaderLines(now)) + "\n"
  {
    HeaderShape(Title, Rule, UpdatedLabel, Timestamp(now), SourceLabel, TrojanUrl);
  }

  lemma HeaderShape(title: string, rule: string, label1: string, value1: string, label2: string, value2: string)
    ensures Join([title, rule, label1 + value1, label2 + value2, rule, ""]) + "\n" ==
      title + "\n" + rule + "\n" + label1 + value1 + "\n" + label2 + value2 + "\n" + rule + "\n\n"
  {
    var l1, l2 := label1 + value1, label2 + value2;
    JoinCons(rule, [""]);
    assert [rule, ""] == [rule] + [""];
    JoinCons(l2, [rule, ""]);
    assert [l2, rule, ""] == [l2] + [rule, ""];
    JoinCons(l1, [l2, rule, ""]);
    assert [l1, l2, rule, ""] == [l1] + [l2, rule, ""];
    JoinCons(rule, [l1, l2, rule, ""]);
    assert [rule, l1, l2, rule, ""] == [rule] + [l1, l2, rule, ""];
    JoinCons(title, [rule, l1, l2, rule, ""]);
    assert [title, rule, l1, l2, rule, ""] == [title] + [rule, l1, l2, rule, ""];
    var s5 := rule + "\n";
    var s4 := l2 + "\n" + s5;
    var s3 := l1 + "\n" + s4;
    var s2 := rule + "\n" + s3;
    var s1 := title + "\n" + s2;
    assert Join([title, rule, l1, l2, rule, ""]) == s1;
    calc {
      s1 + "\n";
      title + "\n" + rule + "\n" + l1 + "\n" + l2 + "\n" + rule + "\n\n";
    }
  }

  /** No header line holds a line break or a carriage return. */
  lemma HeaderLinesPlain(now: DateTime)
    requires ValidDateTime(now)
    ensures forall k :: 0 <= k < |HeaderLines(now)| ==>
      '\n' !in HeaderLines(now)[k] && '\r' !in HeaderLines(now)[k]
    ensures '\r' !in Header(now)
  {
    LabelsPlain();
    UrlPlain();
    TimestampPlain(now);
    var ts := Timestamp(now);
    Absent('\n', UpdatedLabel, ts, "");
    Absent('\r', UpdatedLabel, ts, "");
    Absent('\n', SourceLabel, TrojanUrl, "");
    Absent('\r', SourceLabel, TrojanUrl, "");
    HeaderAsLines(now);
    forall c | c in Header(now) ensures c != '\r' {
      JoinCharacters(HeaderLines(now), c);
    }
  }

  /** The saved text splits into the six header lines followed by the lines of the content. */
  lemma HeaderThenContent(now: DateTime, content: string)
    requires ValidDateTime(now)
    ensures Split(Header(now) + content) == HeaderLines(now) + Split(content)
  {
    HeaderAsLines(now);
    HeaderLinesPlain(now);
    assert Header(now) + content == Join(HeaderLines(now)) + "\n" + content;
    SplitJoinThen(HeaderLines(now), content);
  }

  /** No header line contains the Trojan scheme prefix. */
  lemma HeaderLinesUnmarked(now: DateTime)
    requires ValidDateTime(now)
    ensures forall k :: 0 <= k < |HeaderLines(now)| ==> !Contains(HeaderLines(now)[k], Marker)
  {
    LabelsPlain();
    UrlPlain();
    TimestampPlain(now);
    assert Marker[3] == 'j';
    MissingCharacter(Title, Marker, 3);
    MissingCharacter(Rule, Marker, 3);
    Absent('j', UpdatedLabel, Timestamp(now), "");
    MissingCharacter(UpdatedLabel + Timestamp(now), Marker, 3);
    var url := TrojanUrl;
    Absent('j', SourceLabel, url[..|url| - 3], "");
    assert SourceLabel + url == (SourceLabel + url[..|url| - 3]) + "jan";
    MissingCharacterBeforeTail(SourceLabel + url[..|url| - 3], "jan", Marker, 3);
    MissingCharacter("", Marker, 3);
  }

  // ---------------------------------------------------------------------
  // Facts about the constant pieces of the header

  /** A character absent from three texts is absent from their concatenation. */
  lemma Absent(c: char, a: string, b: string, d: string)
    requires c !in a && c !in b && c !in d
    ensures c !in a + b + d
  {
  }

  /** The constant header texts hold no line break, no carriage return and no `j`. */
  lemma LabelsPlain()
    ensures '\n' !in Title && '\r' !in Title && 'j' !in Title
    ensures '\n' !in UpdatedLabel && '\r' !in UpdatedLabel && 'j' !in UpdatedLabel
    ensures '\n' !in SourceLabel && '\r' !in SourceLabel && 'j' !in SourceLabel
    ensures '\n' !in Rule && '\r' !in Rule && 'j' !in Rule
  {
    TitlePlain();
    assert '\n' !in UpdatedLabel && '\r' !in UpdatedLabel && 'j' !in UpdatedLabel;
    assert '\n' !in SourceLabel && '\r' !in SourceLabel && 'j' !in SourceLabel;
  }

  /** The title holds no line break, no carriage return and no `j`. */
  lemma TitlePlain()
    ensures '\n' !in Title && '\r' !in Title && 'j' !in Title
  {
    TitlePiecePlain("🚀 ПОДПИСКИ ");
    TitlePiecePlain("TROJAN ");
    TitlePiecePlain("(НАДЕЖНЫЙ ПРОТОКОЛ)");
    Absent('\n', "🚀 ПОДПИСКИ ", "TROJAN ", "(НАДЕЖНЫЙ ПРОТОКОЛ)");
    Absent('\r', "🚀 ПОДПИСКИ ", "TROJAN ", "(НАДЕЖНЫЙ ПРОТОКОЛ)");
    Absent('j', "🚀 ПОДПИСКИ ", "TROJAN ", "(НАДЕЖНЫЙ ПРОТОКОЛ)");
  }

  /** Each literal piece of the title holds no line break, no carriage return and no `j`. */
  lemma TitlePiecePlain(piece: string)
    requires piece == "🚀 ПОДПИСКИ " || piece == "TROJAN " || piece == "(НАДЕЖНЫЙ ПРОТОКОЛ)"
    ensures '\n' !in piece && '\r' !in piece && 'j' !in piece
  {
  }

  lemma TimestampPlain(now: DateTime)
    requires ValidDateTime(now)
    ensures '\n' !in Timestamp(now) && '\r' !in Timestamp(now) && 'j' !in Timestamp(now)
  {
    var ts := Timestamp(now);
    forall k | 0 <= k < |ts| ensures ts[k] != '\n' && ts[k] != '\r' && ts[k] != 'j' {
      assert IsTimestampChar(ts[k]);
    }
  }

  /**
   * The formatted time determines the time: the year is everything before
   * the last fifteen characters, and each two-digit field sits at a fixed
   * place among them.
   */
  lemma TimestampFields(t: DateTime)
    requires ValidDateTime(t)
    ensures var r := Timestamp(t); var n := |r| - 15;
      r[..n] == Decimal(t.year) &&
      r[n + 1..n + 3] == TwoDigits(t.month) && r[n + 4..n + 6] == TwoDigits(t.day) &&
      r[n + 7..n + 9] == TwoDigits(t.hour) && r[n + 10..n + 12] == TwoDigits(t.minute) &&
      r[n + 13..] == TwoDigits(t.second)
    ensures var r := Timestamp(t); var n := |r| - 15;
      r[n] == '-' && r[n + 3] == '-' && r[n + 6] == ' ' && r[n + 9] == ':' && r[n + 12] == ':'
  {
  }

  /** Different times are written differently. */
  lemma TimestampInjective(t: DateTime, u: DateTime)
    requires ValidDateTime(t) && ValidDateTime(u)
    requires Timestamp(t) == Timestamp(u)
    ensures t == u
  {
    TimestampFields(t);
    TimestampFields(u);
  }

  /** The only `j` in the URL is in its final "jan". */
  lemma UrlPlain()
    ensures '\n' !in TrojanUrl && '\r' !in TrojanUrl
    ensures |TrojanUrl| >= 3 && 'j' !in TrojanUrl[..|TrojanUrl| - 3] && TrojanUrl[|TrojanUrl| - 3..] == "jan"
  {
    UrlPiecesPlain();
    var stem := UrlHost + UrlPath + "?kind=tro";
    assert TrojanUrl == stem + "jan";
    assert TrojanUrl[..|TrojanUrl| - 3] == stem;
    Absent('j', UrlHost, UrlPath, "?kind=tro");
    Absent('\n', UrlHost, UrlPath, UrlQuery);
    Absent('\r', UrlHost, UrlPath, UrlQuery);
  }

  /** The host, path and query of the URL; the query ends in the URL's only `j`. */
  lemma UrlPiecesPlain()
    ensures UrlQuery == "?kind=tro" + "jan"
    ensures 'j' !in UrlHost && '\n' !in UrlHost && '\r' !in UrlHost
    ensures 'j' !in UrlPath && '\n' !in UrlPath && '\r' !in UrlPath
    ensures 'j' !in "?kind=tro" && '\n' !in UrlQuery && '\r' !in UrlQuery
  {
    HostPlain();
    PathPlain();
  }

  /** The URL's host holds no `j`, no line break and no carriage return. */
  lemma HostPlain()
    ensures 'j' !in UrlHost && '\n' !in UrlHost && '\r' !in UrlHost
  {
  }

  /** The URL's path holds no `j`, no line break and no carriage return. */
  lemma PathPlain()
    ensures 'j' !in UrlPath && '\n' !in UrlPath && '\r' !in UrlPath
  {
  }
}
