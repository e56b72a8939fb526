/**
 The result file of check-price-puppeteer.js: the lines a run appends to it,
 and the scan at start-up that recovers the already recorded candidates with
 the global regular expression `/\[(\d+)\.xyz\]/g`.

 The file is never truncated between runs, so what one run appends is what
 the next run's scan reads back.
 */
module ResultFile {
  import opened Optional
  import opened Decimal
  import opened Strings

  /** The URL template `https://www.spaceship.com/domain-search/?query=${n}.xyz&beast=false&tab=domains`
      around the candidate, written in short pieces so that facts about it
      can be established piece by piece. */
  const UrlPrefix := "https://" + "www." + "spaceship" + ".com/" + "domain-" + "search/" + "?query="
  const UrlSuffix := ".xyz&" + "beast=" + "false&" + "tab=" + "domains"

  /** `buildUrl(n)` */
  function BuildUrl(n: int): string {
    UrlPrefix + IntToString(n) + UrlSuffix
  }

  /** A line appended to the result file: the Markdown link written for a
      hit, or the bare URL written for a successful page without the marker
      when `saveOk` is on. */
  datatype ResultLine = HitLine(n: int) | UrlLine(n: int) {
    function Text(): string {
      match this
      case HitLine(n) => LinkText(IntToString(n), BuildUrl(n))
      case UrlLine(n) => BuildUrl(n)
    }
  }

  /** The Markdown line `## [<id>.xyz](<url>)` of a hit. */
  function LinkText(id: string, url: string): string {
    "## [" + id + ".xyz](" + url + ")"
  }

  /** The file contents after appending `lines` to an empty file
      (`appendLine` writes each line followed by a newline). */
  function Render(lines: seq<ResultLine>): string
    decreases |lines|
  {
    if |lines| == 0 then "" else lines[0].Text() + "\n" + Render(lines[1..])
  }

  // ---------------------------------------------------------------------
  // The start-up scan
  // ---------------------------------------------------------------------

  /** Length of the longest run of digits at the front of `s` (greedy `\d+`). */
  function DigitRun(s: string): (r: nat)
    ensures r <= |s|
    ensures forall k :: 0 <= k < r ==> IsDigit(s[k])
    ensures r < |s| ==> !IsDigit(s[r])
    decreases |s|
  {
    if |s| > 0 && IsDigit(s[0]) then 1 + DigitRun(s[1..]) else 0
  }

  /** One match of `\[(\d+)\.xyz\]`: the captured digits and the length of the
      matched text. */
  datatype Match = Match(id: string, length: nat)

  /** The match of the pattern at the very start of `s`, if any. Since `.`
      is not a digit, the greedy digit run is the only one that can be
      followed by `.xyz]`, so no backtracking is needed. */
  function MatchAt(s: string): (r: Option<Match>)
    ensures r.Some? ==> 7 <= r.value.length <= |s|
    ensures r.Some? ==> s[0] == '[' && r.value.id == s[1..r.value.length - 5]
    ensures r.Some? ==> |r.value.id| > 0 && AllDigits(r.value.id)
    ensures r.Some? ==> s[r.value.length - 5..r.value.length] == ".xyz]"
  {
    if |s| == 0 || s[0] != '[' then None
    else
      var d := DigitRun(s[1..]);
      if d > 0 && 6 + d <= |s| && s[1 + d..6 + d] == ".xyz]" then Some(Match(s[1..1 + d], 6 + d))
      else None
  }

  /** The captured digits of every match, leftmost first; after a match the
      search resumes behind it, after a miss one character further on. */
  function ScanIds(s: string): (ids: seq<string>)
    ensures forall k :: 0 <= k < |ids| ==> |ids[k]| > 0 && AllDigits(ids[k])
    decreases |s|
  {
    if |s| == 0 then []
    else
      match MatchAt(s)
      case Some(m) => [m.id] + ScanIds(s[m.length..])
      case None => ScanIds(s[1..])
  }

  /** The dedup set a run starts with: the scanned identifiers of the prior
      result file, or nothing when the file cannot be read. */
  function Seed(prior: Option<string>): set<string> {
    match prior
    case Some(content) => set id | id in ScanIds(content)
    case None => {}
  }

  // ---------------------------------------------------------------------
  // Reading back what was written
  // ---------------------------------------------------------------------

  /** The identifier the scan reads back from one line, if any. */
  function LineIds(line: ResultLine): seq<string> {
    if line.HitLine? && line.n >= 0 then [IntToString(line.n)] else []
  }

  /** The identifiers the scan recovers from `lines`: those of the hit lines
      of non-negative candidates. A bare URL line carries no brackets, and the
      minus sign of a negative candidate is not a digit. */
  function RecoveredIds(lines: seq<ResultLine>): seq<string>
    decreases |lines|
  {
    if |lines| == 0 then [] else LineIds(lines[0]) + RecoveredIds(lines[1..])
  }

  predicate NoBracket(s: string) {
    forall i :: 0 <= i < |s| ==> s[i] != '['
  }

  /** Characters that can extend an unfinished match. */
  predicate MayContinue(c: char) {
    IsDigit(c) || c == '.' || c == 'x' || c == 'y' || c == 'z' || c == ']'
  }

  lemma {:induction false} DigitRunAppend(s: string, t: string)
    ensures DigitRun(s) < |s| ==> DigitRun(s + t) == DigitRun(s)
    ensures DigitRun(s) == |s| ==> DigitRun(s + t) == |s| + DigitRun(t)
    decreases |s|
  {
    if |s| > 0 {
      assert (s + t)[1..] == s[1..] + t;
      if IsDigit(s[0]) {
        DigitRunAppend(s[1..], t);
      }
    } else {
      assert s + t == t;
    }
  }

  lemma {:induction false} ScanWithoutBracket(s: string)
    requires NoBracket(s)
    ensures ScanIds(s) == []
    decreases |s|
  {
    if |s| > 0 {
      ScanWithoutBracket(s[1..]);
    }
  }

  lemma NoBracketAppend(a: string, b: string)
    requires NoBracket(a) && NoBracket(b)
    ensures NoBracket(a + b)
  {
    forall i | 0 <= i < |a + b|
      ensures (a + b)[i] != '['
    {
      if i >= |a| {
        assert (a + b)[i] == b[i - |a|];
      }
    }
  }

  lemma IntToStringNoBracket(n: int)
    ensures NoBracket(IntToString(n))
  {
    var s := IntToString(n);
    if n >= 0 {
      assert AllDigits(s);
    } else {
      assert AllDigits(s[1..]);
      forall i | 0 <= i < |s|
        ensures s[i] != '['
      {
        if i > 0 {
          assert s[i] == s[1..][i - 1];
        }
      }
    }
  }

  lemma PrefixPiecesNoBracket()
    ensures NoBracket("https://") && NoBracket("www.") && NoBracket("spaceship") && NoBracket(".com/")
    ensures NoBracket("domain-") && NoBracket("search/") && NoBracket("?query=")
  {
  }

  lemma SuffixPiecesNoBracket()
    ensures NoBracket(".xyz&") && NoBracket("beast=") && NoBracket("false&") && NoBracket("tab=")
    ensures NoBracket("domains")
  {
  }

  /** The URL template holds no bracket. */
  lemma TemplateNoBracket()
    ensures NoBracket(UrlPrefix) && NoBracket(UrlSuffix)
  {
    PrefixPiecesNoBracket();
    SuffixPiecesNoBracket();
    var p1 := "https://" + "www.";
    var p2 := p1 + "spaceship";
    var p3 := p2 + ".com/";
    var p4 := p3 + "domain-";
    var p5 := p4 + "search/";
    NoBracketAppend("https://", "www.");
    NoBracketAppend(p1, "spaceship");
    NoBracketAppend(p2, ".com/");
    NoBracketAppend(p3, "domain-");
    NoBracketAppend(p4, "search/");
    NoBracketAppend(p5, "?query=");
    var s1 := ".xyz&" + "beast=";
    var s2 := s1 + "false&";
    var s3 := s2 + "tab=";
    NoBracketAppend(".xyz&", "beast=");
    NoBracketAppend(s1, "false&");
    NoBracketAppend(s2, "tab=");
    NoBracketAppend(s3, "domains");
  }

  lemma BuildUrlNoBracket(n: int)
    ensures NoBracket(BuildUrl(n))
  {
    TemplateNoBracket();
    IntToStringNoBracket(n);
    NoBracketAppend(UrlPrefix, IntToString(n));
    NoBracketAppend(UrlPrefix + IntToString(n), UrlSuffix);
  }

  /** Every character of `.xyz]` continues a match begun before it. */
  lemma SuffixMayContinue(k: nat)
    requires k < 5
    ensures MayContinue(".xyz]"[k])
  {
    var x := ".xyz]";
    assert x[0] == '.' && x[1] == 'x' && x[2] == 'y' && x[3] == 'z' && x[4] == ']';
  }

  /** A match cut off by a character that cannot continue it is the same
      match, or the same absence of one, as in the text before the cut. */
  lemma MatchAtExtend(s: string, t: string)
    requires |s| > 0
    requires |t| == 0 || !MayContinue(t[0])
    ensures MatchAt(s + t) == MatchAt(s)
  {
    var u := s + t;
    if |t| > 0 && s[0] == '[' {
      assert u[1..] == s[1..] + t;
      DigitRunAppend(s[1..], t);
      var d := DigitRun(s[1..]);
      assert u[|s|] == t[0];
      if d < |s| - 1 {
        assert DigitRun(u[1..]) == d;
        assert u[1..1 + d] == s[1..1 + d];
        if 6 + d <= |s| {
          assert u[1 + d..6 + d] == s[1 + d..6 + d];
        } else if 6 + d <= |u| {
          NoSuffixAcross(u, 1 + d, |s| - (1 + d));
        }
      } else {
        assert DigitRun(t) == 0;
        if 6 + d <= |u| {
          NoSuffixAcross(u, 1 + d, 0);
        }
      }
    } else if |t| == 0 {
      assert u == s;
    }
  }

  /** A character that cannot continue a match rules out `.xyz]` at every
      window holding it. */
  lemma NoSuffixAcross(u: string, lo: nat, k: nat)
    requires lo + 5 <= |u| && k < 5 && !MayContinue(u[lo + k])
    ensures u[lo..lo + 5] != ".xyz]"
  {
    SuffixMayContinue(k);
    assert u[lo..lo + 5][k] == u[lo + k];
  }

  /** How far the scan moves past the front of `u`. */
  function Skip(u: string): (k: nat)
    requires |u| > 0
    ensures 0 < k <= |u|
  {
    match MatchAt(u)
    case Some(m) => m.length
    case None => 1
  }

  /** The identifier the scan collects at the front of `u`, if any. */
  function FrontIds(u: string): seq<string> {
    match MatchAt(u)
    case Some(m) => [m.id]
    case None => []
  }

  lemma StepExtend(s: string, t: string)
    requires |s| > 0
    requires |t| == 0 || !MayContinue(t[0])
    ensures Skip(s + t) == Skip(s) && FrontIds(s + t) == FrontIds(s)
  {
    MatchAtExtend(s, t);
  }

  lemma ScanStep(u: string)
    requires |u| > 0
    ensures ScanIds(u) == FrontIds(u) + ScanIds(u[Skip(u)..])
  {
  }

  /** One step of the scan over `s + t` is the same step as over `s`. */
  lemma ScanAppendStep(s: string, t: string)
    requires |s| > 0
    requires |t| == 0 || !MayContinue(t[0])
    ensures ScanIds(s + t) == FrontIds(s) + ScanIds(s[Skip(s)..] + t)
  {
    StepExtend(s, t);
    ScanStep(s + t);
    DropAppend(s, t, Skip(s));
  }

  lemma DropAppend(s: string, t: string, k: nat)
    requires k <= |s|
    ensures (s + t)[k..] == s[k..] + t
  {
  }

  lemma Regroup<T>(whole: seq<T>, front: seq<T>, later: seq<T>, rest: seq<T>, tail: seq<T>, first: seq<T>)
    requires whole == front + later && later == rest + tail && first == front + rest
    ensures whole == first + tail
  {
  }

  /** Cutting the text before a character that cannot continue a match splits
      the scan in two. */
  lemma {:induction false} ScanAppend(s: string, t: string)
    requires |t| == 0 || !MayContinue(t[0])
    ensures ScanIds(s + t) == ScanIds(s) + ScanIds(t)
    decreases |s|
  {
    if |s| == 0 {
      assert s + t == t;
    } else {
      var k := Skip(s);
      ScanStep(s);
      ScanAppendStep(s, t);
      ScanAppend(s[k..], t);
      Regroup(ScanIds(s + t), FrontIds(s), ScanIds(s[k..] + t), ScanIds(s[k..]), ScanIds(t), ScanIds(s));
    }
  }

  /** The bracketed part `[<n>.xyz]` of a hit line yields `n` when `n` is not
      negative, and nothing otherwise. */
  lemma ScanBracket(n: int)
    ensures ScanIds("[" + IntToString(n) + ".xyz]") ==
      if n >= 0 then [IntToString(n)] else []
  {
    var d := IntToString(n);
    var b := Bracketed(d);
    BracketedShape(d);
    if n >= 0 {
      MatchAtConverse(b, d);
      assert b[|d| + 6..] == [];
    } else {
      assert b[1..] == d + ".xyz]";
      assert DigitRun(b[1..]) == 0;
      assert MatchAt(b) == None;
      assert b[1..] == "-" + NatToString(-n) + ".xyz]";
      IntToStringNoBracket(n);
      NoBracketAppend(d, ".xyz]");
      ScanWithoutBracket(b[1..]);
    }
  }

  lemma ConcatHead(a: string, b: string)
    requires |a| > 0
    ensures (a + b)[0] == a[0]
  {
  }

  lemma PrefixStart()
    ensures |UrlPrefix| > 0 && UrlPrefix[0] == 'h'
  {
    var p1 := "https://" + "www.";
    var p2 := p1 + "spaceship";
    var p3 := p2 + ".com/";
    var p4 := p3 + "domain-";
    var p5 := p4 + "search/";
    ConcatHead("https://", "www.");
    ConcatHead(p1, "spaceship");
    ConcatHead(p2, ".com/");
    ConcatHead(p3, "domain-");
    ConcatHead(p4, "search/");
    ConcatHead(p5, "?query=");
  }

  lemma UrlStart(n: int)
    ensures |BuildUrl(n)| > 0 && BuildUrl(n)[0] == 'h'
  {
    PrefixStart();
    ConcatHead(UrlPrefix, IntToString(n));
    ConcatHead(UrlPrefix + IntToString(n), UrlSuffix);
  }

  /** Every result line starts with `#` or `h`, neither of which can continue
      a match begun before it. */
  lemma TextStart(line: ResultLine)
    ensures |line.Text()| > 0 && !MayContinue(line.Text()[0])
  {
    match line
    case HitLine(n) =>
      var id, url := IntToString(n), BuildUrl(n);
      assert LinkText(id, url) == "## [" + (id + ".xyz](" + url + ")");
    case UrlLine(n) =>
      UrlStart(n);
  }

  /** The part of a link line after the bracket reads back nothing. */
  lemma ScanTail(url: string)
    requires NoBracket(url)
    ensures |"(" + url + ")\n"| > 0 && ("(" + url + ")\n")[0] == '('
    ensures ScanIds("(" + url + ")\n") == []
  {
    assert NoBracket("(") && NoBracket(")\n");
    NoBracketAppend("(", url);
    NoBracketAppend("(" + url, ")\n");
    ScanWithoutBracket("(" + url + ")\n");
    ConcatHead("(", url);
    ConcatHead("(" + url, ")\n");
  }

  /** The heading mark in front of a bracket reads back nothing. */
  lemma ScanAfterHead(rest: string)
    requires |rest| > 0 && rest[0] == '['
    ensures ScanIds("## " + rest) == ScanIds(rest)
  {
    assert NoBracket("## ");
    ScanWithoutBracket("## ");
    ScanAppend("## ", rest);
  }

  /** The scan of a link line: the bracketed part is the only place it can
      match, since the URL holds no bracket. */
  lemma ScanLinkText(n: int, url: string)
    requires NoBracket(url)
    ensures ScanIds(LinkText(IntToString(n), url) + "\n") == if n >= 0 then [IntToString(n)] else []
  {
    var id := IntToString(n);
    var bracket := "[" + id + ".xyz]";
    var tail := "(" + url + ")\n";
    assert LinkText(id, url) + "\n" == "## " + (bracket + tail);
    ScanTail(url);
    ScanAppend(bracket, tail);
    ConcatHead("[", id);
    ConcatHead("[" + id, ".xyz]");
    ConcatHead(bracket, tail);
    ScanAfterHead(bracket + tail);
    ScanBracket(n);
  }

  /** Round trip of one appended hit line: the scan recovers `n.toString()`
      from `## [<n>.xyz](<url>)` when `n` is not negative, and nothing when it is. */
  lemma ScanHitLine(n: int)
    ensures ScanIds(HitLine(n).Text() + "\n") == if n >= 0 then [IntToString(n)] else []
  {
    BuildUrlNoBracket(n);
    ScanLinkText(n, BuildUrl(n));
  }

  /** A bare URL line is never read back. */
  lemma ScanUrlLine(n: int)
    ensures ScanIds(UrlLine(n).Text() + "\n") == []
  {
    BuildUrlNoBracket(n);
    assert NoBracket("\n");
    NoBracketAppend(BuildUrl(n), "\n");
    ScanWithoutBracket(BuildUrl(n) + "\n");
  }

  lemma ScanLine(line: ResultLine)
    ensures ScanIds(line.Text() + "\n") == LineIds(line)
  {
    if line.HitLine? {
      ScanHitLine(line.n);
    } else {
      ScanUrlLine(line.n);
    }
  }

  /** A rendered file starts with the first character of its first line. */
  lemma RenderStart(lines: seq<ResultLine>)
    ensures |Render(lines)| == 0 || !MayContinue(Render(lines)[0])
  {
    if |lines| > 0 {
      var t := lines[0].Text();
      TextStart(lines[0]);
      ConcatHead(t, "\n");
      ConcatHead(t + "\n", Render(lines[1..]));
    }
  }

  /** Round trip of a whole file written by `appendLine`. */
  lemma {:induction false} ScanRender(lines: seq<ResultLine>)
    ensures ScanIds(Render(lines)) == RecoveredIds(lines)
    decreases |lines|
  {
    if |lines| > 0 {
      var head := lines[0].Text() + "\n";
      var rest := Render(lines[1..]);
      assert Render(lines) == head + rest;
      RenderStart(lines[1..]);
      ScanAppend(head, rest);
      ScanLine(lines[0]);
      ScanRender(lines[1..]);
    }
  }

  /** Appending to an existing file: whatever the prior contents, the scan of
      the longer file is the scan of the prior file followed by the ids of the
      appended hit lines. */
  lemma ScanAfterAppend(prior: string, lines: seq<ResultLine>)
    ensures ScanIds(prior + Render(lines)) == ScanIds(prior) + RecoveredIds(lines)
  {
    if |lines| > 0 {
      TextStart(lines[0]);
    }
    ScanAppend(prior, Render(lines));
    ScanRender(lines);
  }

  /** The dedup set a later run starts from: the set of the earlier run, plus
      every non-negative hit the earlier run appended. */
  lemma SeedAfterAppend(prior: string, lines: seq<ResultLine>)
    ensures Seed(Some(prior + Render(lines))) == Seed(Some(prior)) + set id | id in RecoveredIds(lines)
  {
    ScanAfterAppend(prior, lines);
  }

  // ---------------------------------------------------------------------
  // What the scan finds
  // ---------------------------------------------------------------------

  /** The text `[<id>.xyz]` the pattern matches with capture `id`. */
  function Bracketed(id: string): string {
    "[" + id + ".xyz]"
  }

  /** A capture `\d+` can produce: a non-empty run of digits. */
  predicate Capturable(id: string) {
    |id| > 0 && AllDigits(id)
  }

  lemma BracketedShape(id: string)
    ensures |Bracketed(id)| == |id| + 6
    ensures Bracketed(id)[0] == '['
    ensures Bracketed(id)[1..|id| + 1] == id
    ensures Bracketed(id)[|id| + 1..] == ".xyz]"
  {
    ConcatHead("[", id);
    ConcatHead("[" + id, ".xyz]");
  }

  /** What `MatchAt` reports is the bracketed capture `s` starts with. */
  lemma MatchAtPrefix(s: string)
    requires MatchAt(s).Some?
    ensures Bracketed(MatchAt(s).value.id) <= s
  {
    var m := MatchAt(s).value;
    var b := Bracketed(m.id);
    var l := m.length;
    BracketedShape(m.id);
    forall k | 0 <= k < l
      ensures b[k] == s[k]
    {
      if 0 < k < l - 5 {
        assert b[k] == b[1..l - 5][k - 1];
      } else if k >= l - 5 {
        assert b[k] == b[l - 5..][k - (l - 5)];
        assert s[k] == s[l - 5..l][k - (l - 5)];
      }
    }
    assert b == s[..l];
  }

  /** Conversely, a text starting with a bracketed capture matches it. */
  lemma MatchAtConverse(s: string, id: string)
    requires Capturable(id) && Bracketed(id) <= s
    ensures MatchAt(s) == Some(Match(id, |id| + 6))
  {
    var b := Bracketed(id);
    BracketedShape(id);
    var t := s[1..];
    var n := |id|;
    assert s[0] == b[0];
    assert t[..n] == b[1..n + 1];
    assert t[n] == b[n + 1..][0];
    assert DigitRun(t) == n;
    assert s[1..1 + n] == t[..n];
    assert s[1 + n..6 + n] == b[n + 1..];
  }

  /** The match at the front of `s` is exactly the bracketed capture `s`
      starts with: the converse of `MatchAt`'s postconditions. */
  lemma MatchAtIff(s: string, m: Match)
    ensures MatchAt(s) == Some(m) <==>
      Capturable(m.id) && m.length == |m.id| + 6 && Bracketed(m.id) <= s
  {
    if MatchAt(s) == Some(m) {
      MatchAtPrefix(s);
      BracketedShape(m.id);
    }
    if Capturable(m.id) && m.length == |m.id| + 6 && Bracketed(m.id) <= s {
      MatchAtConverse(s, m.id);
    }
  }

  /** Every character of a match after its opening bracket can continue
      it; in particular none is another `[`. */
  lemma MatchInterior(s: string, k: int)
    ensures MatchAt(s).Some? && 0 < k < MatchAt(s).value.length ==> MayContinue(s[k])
  {
    if MatchAt(s).Some? && 0 < k < MatchAt(s).value.length {
      var m := MatchAt(s).value;
      var l := m.length;
      if k < l - 5 {
        assert s[k] == m.id[k - 1];
      } else {
        assert s[k] == s[l - 5..l][k - (l - 5)];
        SuffixMayContinue(k - (l - 5));
      }
    }
  }

  lemma OccursHead(s: string, sub: string, i: int)
    ensures OccursAt(s, sub, i) && |sub| > 0 ==> s[i] == sub[0]
  {
    if OccursAt(s, sub, i) && |sub| > 0 {
      assert s[i..i + |sub|][0] == s[i];
    }
  }

  /** Matches do not overlap: no bracketed text starts inside the match at
      the front of `s`. */
  lemma NoOccurrenceInside(s: string, id: string, i: int)
    requires MatchAt(s).Some? && 0 < i
    ensures OccursAt(s, Bracketed(id), i) ==> i >= MatchAt(s).value.length
  {
    BracketedShape(id);
    OccursHead(s, Bracketed(id), i);
    MatchInterior(s, i);
  }

  lemma OccursDrop(s: string, sub: string, k: nat, i: nat)
    requires k <= |s|
    ensures OccursAt(s[k..], sub, i) <==> OccursAt(s, sub, i + k)
  {
    if i + |sub| <= |s| - k {
      assert s[k..][i..i + |sub|] == s[i + k..i + k + |sub|];
    }
  }

  lemma OccursAtStart(s: string, sub: string)
    ensures OccursAt(s, sub, 0) <==> sub <= s
  {
  }

  /** Every bracketed capture in `s` is collected by the scan. */
  lemma {:induction false} ScanFinds(s: string, id: string, i: nat)
    requires Capturable(id) && OccursAt(s, Bracketed(id), i)
    ensures id in ScanIds(s)
    decreases |s|
  {
    var b := Bracketed(id);
    BracketedShape(id);
    match MatchAt(s)
    case Some(m) =>
      if i == 0 {
        OccursAtStart(s, b);
        MatchAtIff(s, Match(id, |id| + 6));
      } else {
        NoOccurrenceInside(s, id, i);
        OccursDrop(s, b, m.length, i - m.length);
        ScanFinds(s[m.length..], id, i - m.length);
      }
    case None =>
      OccursAtStart(s, b);
      MatchAtIff(s, Match(id, |id| + 6));
      OccursDrop(s, b, 1, i - 1);
      ScanFinds(s[1..], id, i - 1);
  }

  /** Everything the scan collects is a bracketed capture somewhere in `s`. */
  lemma {:induction false} ScanFound(s: string, id: string) returns (i: nat)
    requires id in ScanIds(s)
    ensures OccursAt(s, Bracketed(id), i)
    decreases |s|
  {
    var b := Bracketed(id);
    var k := Skip(s);
    ScanStep(s);
    if id in FrontIds(s) {
      MatchAtPrefix(s);
      OccursAtStart(s, b);
      i := 0;
    } else {
      var j := ScanFound(s[k..], id);
      OccursDrop(s, b, k, j);
      i := j + k;
    }
  }

  /** The scan collects `id` exactly when `[<id>.xyz]` occurs in `s` for a
      non-empty run of digits `id`. */
  lemma ScanIdsIff(s: string, id: string)
    ensures id in ScanIds(s) <==> Capturable(id) && Contains(s, Bracketed(id))
  {
    ContainsIff(s, Bracketed(id));
    if id in ScanIds(s) {
      var i := ScanFound(s, id);
    }
    if Capturable(id) && Contains(s, Bracketed(id)) {
      var i :| OccursAt(s, Bracketed(id), i);
      ScanFinds(s, id, i);
    }
  }

  /** The dedup set read from a prior file holds exactly the bracketed
      captures that occur in it. */
  lemma SeedIff(content: string, id: string)
    ensures id in Seed(Some(content)) <==> Capturable(id) && Contains(content, Bracketed(id))
  {
    ScanIdsIff(content, id);
  }
}
