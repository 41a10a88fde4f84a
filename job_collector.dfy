/** The job-feed harvester: it reads the rows of a markdown table of job
    postings (one posting per line, columns separated by `|`) and turns each
    usable row into a `Job` with the company, the role and the apply link. */
module Jobs {
  import opened Wrappers
  import opened Text

  /** One harvested posting: the record with the keys company, role and url. */
  datatype Job = Job(company: string, role: string, url: string)

  /** The company pattern `<strong>(.*?)</strong>` and the link pattern
      `<a href="([^"]+)"` are built from these literals. */
  const CompanyOpen := "<strong>"
  const CompanyClose := "</strong>"
  const LinkOpen := "<a href=\""

  /** Python's `pattern.search(s)` for a pattern whose attempt at each start
      position is `matchAt`: start positions `i, i + 1, ..., |s|` are tried in
      order and the group of the first attempt that succeeds is the result. */
  function Search(s: string, matchAt: nat -> Option<string>, i: nat): (r: Option<string>)
    decreases |s| + 1 - i
    ensures r.Some? ==> exists k | i <= k <= |s| :: matchAt(k) == r
                                                 && forall m | i <= m < k :: matchAt(m).None?
    ensures r.None? ==> forall k | i <= k <= |s| :: matchAt(k).None?
  {
    if i > |s| then None
    else if matchAt(i).Some? then matchAt(i)
    else Search(s, matchAt, i + 1)
  }

  /** `Search` returns the group of the leftmost start at which the
      attempt succeeds, and nothing when no start succeeds. */
  lemma SearchLeftmost(s: string, matchAt: nat -> Option<string>, k: nat)
    requires k <= |s| && matchAt(k).Some?
    requires forall m | 0 <= m < k :: matchAt(m).None?
    ensures Search(s, matchAt, 0) == matchAt(k)
  {
    var r := Search(s, matchAt, 0);
    assert r.Some?;
    var k' :| 0 <= k' <= |s| && matchAt(k') == r && forall m | 0 <= m < k' :: matchAt(m).None?;
    assert !(k < k') && !(k' < k);
  }

  /** `Search` finds nothing when no start succeeds. */
  lemma SearchNone(s: string, matchAt: nat -> Option<string>)
    requires forall k | 0 <= k <= |s| :: matchAt(k).None?
    ensures Search(s, matchAt, 0).None?
  {
  }

  /** The lazy part `(.*?)</strong>`, tried from index `j`: the first
      `</strong>` at or after `j`, provided no line break comes before it
      (Python's `.` does not match `\n`). */
  function LazyClose(s: string, j: nat): (r: Option<nat>)
    decreases |s| + 1 - j
    ensures r.Some? ==> j <= r.value && At(s, CompanyClose, r.value)
    ensures r.Some? ==> forall m | j <= m < r.value :: !At(s, CompanyClose, m) && s[m] != '\n'
    ensures r.None? ==> forall m | j <= m && At(s, CompanyClose, m) :: exists n | j <= n < m :: s[n] == '\n'
  {
    if At(s, CompanyClose, j) then Some(j)
    else if j >= |s| || s[j] == '\n' then None
    else LazyClose(s, j + 1)
  }

  /** The attempt of the company pattern at start `i`. Its group holds no
      `</strong>` and no line break. */
  function CompanyAt(s: string, i: nat): (r: Option<string>)
    ensures r.Some? ==> At(s, CompanyOpen, i) && LazyClose(s, i + |CompanyOpen|).Some?
    ensures r.Some? ==> !Contains(r.value, CompanyClose) && '\n' !in r.value
  {
    if !At(s, CompanyOpen, i) then None
    else match LazyClose(s, i + |CompanyOpen|)
      case None => None
      case Some(j) =>
        var g := s[i + |CompanyOpen|..j];
        assert !Contains(g, CompanyClose) by {
          forall k | 0 <= k <= |g| - |CompanyClose| && At(g, CompanyClose, k) ensures false {
            AtInfix(s, CompanyClose, i + |CompanyOpen|, j, k);
          }
        }
        assert forall m | 0 <= m < |g| :: g[m] == s[i + |CompanyOpen| + m];
        Some(g)
  }

  /** `company_pattern.search(col)`. */
  function CompanyMatch(col: string): (r: Option<string>)
    ensures r.Some? ==> !Contains(r.value, CompanyClose) && '\n' !in r.value
  {
    Search(col, (k: nat) => CompanyAt(col, k), 0)
  }

  /** Reference reading of the company pattern on one line: the text between
      the leftmost `<strong>` and the first `</strong>` after it. */
  function BetweenTags(s: string): Option<string> {
    match Find(s, CompanyOpen, 0)
    case None => None
    case Some(i) =>
      match Find(s, CompanyClose, i + |CompanyOpen|)
      case None => None
      case Some(j) => Some(s[i + |CompanyOpen|..j])
  }

  /** Without line breaks the lazy scan finds the first closing tag. */
  lemma {:induction false} LazyCloseOnLine(s: string, j: nat)
    requires '\n' !in s
    decreases |s| + 1 - j
    ensures LazyClose(s, j) == Find(s, CompanyClose, j)
  {
    if !At(s, CompanyClose, j) && j < |s| {
      assert s[j] in s;
      LazyCloseOnLine(s, j + 1);
    }
  }

  /** On a line, `company_pattern.search` agrees with the reference reading:
      the group lies between the leftmost `<strong>` and the first
      `</strong>` after it, and there is no group without such a pair. */
  lemma CompanyMatchOnLine(s: string)
    requires '\n' !in s
    ensures CompanyMatch(s) == BetweenTags(s)
  {
    var open := Find(s, CompanyOpen, 0);
    if open.None? {
      NoOpen(s);
    } else {
      var close := Find(s, CompanyClose, open.value + |CompanyOpen|);
      if close.None? {
        NoCloseAfter(s, open.value);
      } else {
        CompanyFound(s, open.value, close.value);
        assert BetweenTags(s) == Some(s[open.value + |CompanyOpen|..close.value]);
      }
    }
  }

  /** No company when no start of the pattern succeeds. */
  lemma CompanyNone(s: string)
    requires forall k | 0 <= k <= |s| :: CompanyAt(s, k).None?
    ensures CompanyMatch(s).None?
  {
    var matchAt := (k: nat) => CompanyAt(s, k);
    assert forall k | 0 <= k <= |s| :: matchAt(k).None?;
    SearchNone(s, matchAt);
  }

  /** On a line, the text between the first `<strong>` and the first
      `</strong>` after it is the company. */
  lemma CompanyFound(s: string, i: nat, j: nat)
    requires '\n' !in s && Find(s, CompanyOpen, 0) == Some(i)
    requires Find(s, CompanyClose, i + |CompanyOpen|) == Some(j)
    ensures CompanyMatch(s) == Some(s[i + |CompanyOpen|..j])
  {
    var matchAt := (k: nat) => CompanyAt(s, k);
    LazyCloseOnLine(s, i + |CompanyOpen|);
    assert matchAt(i) == Some(s[i + |CompanyOpen|..j]);
    assert forall m | 0 <= m < i :: matchAt(m).None?;
    SearchLeftmost(s, matchAt, i);
  }

  /** Without a `<strong>`, no start of the company pattern succeeds. */
  lemma NoOpen(s: string)
    requires Find(s, CompanyOpen, 0).None?
    ensures CompanyMatch(s) == BetweenTags(s) == None
  {
    assert forall k | 0 <= k <= |s| :: CompanyAt(s, k).None?;
    CompanyNone(s);
  }

  /** Once the first `<strong>` of a line has no `</strong>` after it, no
      start of the company pattern succeeds. */
  lemma NoCloseAfter(s: string, i: nat)
    requires '\n' !in s && Find(s, CompanyOpen, 0) == Some(i)
    requires Find(s, CompanyClose, i + |CompanyOpen|).None?
    ensures CompanyMatch(s) == BetweenTags(s) == None
  {
    forall k | 0 <= k <= |s| ensures CompanyAt(s, k).None? {
      if i <= k && At(s, CompanyOpen, k) {
        LazyCloseOnLine(s, k + |CompanyOpen|);
      }
    }
    CompanyNone(s);
  }

  /** `<a href="` at `i`, then a non-empty run without `"` up to the `"` at
      `e`: an occurrence of the link pattern. */
  predicate LinkOccurrence(s: string, i: nat, e: nat) {
    At(s, LinkOpen, i) && i + |LinkOpen| < e < |s| && s[e] == '"'
    && forall m | i + |LinkOpen| <= m < e :: s[m] != '"'
  }

  /** The attempt of the link pattern at start `i`: after `<a href="`, the
      greedy `[^"]+` runs to the first `"`, which must exist and must not be
      the very next character. */
  function LinkAt(s: string, i: nat): (r: Option<string>)
    ensures r.Some? ==> At(s, LinkOpen, i)
    ensures r.Some? ==> r.value != [] && '"' !in r.value
    ensures r.Some? ==> (i + |LinkOpen| + |r.value| < |s| && s[i + |LinkOpen| + |r.value|] == '"'
                         && s[i + |LinkOpen|..i + |LinkOpen| + |r.value|] == r.value)
    ensures r.Some? ==> LinkOccurrence(s, i, i + |LinkOpen| + |r.value|)
  {
    if !At(s, LinkOpen, i) then None
    else match FindChar(s, '"', i + |LinkOpen|)
      case None => None
      case Some(e) =>
        if e == i + |LinkOpen| then None
        else
          var g := s[i + |LinkOpen|..e];
          assert forall m | 0 <= m < |g| :: g[m] == s[i + |LinkOpen| + m];
          Some(g)
  }

  /** An occurrence of the link pattern at `i` is what the attempt at `i`
      finds. */
  lemma LinkAtFound(s: string, i: nat, e: nat)
    requires LinkOccurrence(s, i, e)
    ensures LinkAt(s, i) == Some(s[i + |LinkOpen|..e])
  {
  }

  /** `apply_link_pattern.search(col)`: the value of the leftmost
      `<a href="` that is followed by a non-empty run of characters other
      than `"` and a closing `"`. */
  function LinkMatch(col: string): (r: Option<string>)
    ensures r.Some? ==> r.value != [] && '"' !in r.value
    ensures r.Some? ==> exists i | 0 <= i <= |col| :: LinkAt(col, i) == r
                                                 && forall m | 0 <= m < i :: LinkAt(col, m).None?
    ensures r.None? ==> forall i | 0 <= i <= |col| :: LinkAt(col, i).None?
  {
    var matchAt := (k: nat) => LinkAt(col, k);
    var r := Search(col, matchAt, 0);
    assert forall i | 0 <= i <= |col| :: matchAt(i) == LinkAt(col, i);
    r
  }

  /** The link of a column is the run of the leftmost occurrence of the
      link pattern. */
  lemma LinkMatchLeftmost(col: string, i: nat, e: nat)
    requires LinkOccurrence(col, i, e)
    requires forall m, e2 | 0 <= m < i :: !LinkOccurrence(col, m, e2)
    ensures LinkMatch(col) == Some(col[i + |LinkOpen|..e])
  {
    LinkAtFound(col, i, e);
    var matchAt := (k: nat) => LinkAt(col, k);
    assert forall m | 0 <= m < i :: matchAt(m).None?;
    SearchLeftmost(col, matchAt, i);
  }

  /** A column without an occurrence of the link pattern has no link. */
  lemma LinkMatchNone(col: string)
    requires forall i, e :: !LinkOccurrence(col, i, e)
    ensures LinkMatch(col).None?
  {
    assert forall i | 0 <= i <= |col| :: LinkAt(col, i).None?;
  }

  /** Columns 1, 2 and 5 of a row: the company in bold, the role, and the
      apply link, which must contain `http`. */
  function ParseColumns(parts: seq<string>): (r: Option<Job>)
    requires |parts| >= 6
    ensures r.Some? ==> (CompanyMatch(parts[1]) == Some(r.value.company)
                         && r.value.role == Trim(parts[2], IsSpace)
                         && LinkMatch(parts[5]) == Some(r.value.url) && Contains(r.value.url, "http"))
    ensures CompanyMatch(parts[1]).Some? && LinkMatch(parts[5]).Some? && Contains(LinkMatch(parts[5]).value, "http")
            ==> r.Some?
  {
    match CompanyMatch(parts[1])
    case None => None
    case Some(company) =>
      var role := Trim(parts[2], IsSpace);
      match LinkMatch(parts[5])
      case None => None
      case Some(url) =>
        if url != [] && Contains(url, "http") then Some(Job(company, role, url)) else None
  }

  /** What one line of the feed contributes: a job, or nothing when the line
      is a separator row, has too few columns, has no company in bold in
      column 1, has no link in column 5, or links to something without
      `http` in it. The role is column 2 with surrounding whitespace removed
      and never causes a skip. */
  function ParseRow(line: string): (r: Option<Job>)
    ensures '|' !in line || Contains(line, "---") ==> r.None?
    ensures r.Some? ==> Contains(r.value.url, "http") && r.value.url != [] && '"' !in r.value.url
    ensures r.Some? ==> !Contains(r.value.company, CompanyClose) && '\n' !in r.value.company
    ensures r.Some? ==> Trimmed(r.value.role, IsSpace)
  {
    if '|' !in line || Contains(line, "---") then None
    else
      var parts := Split(line, '|');
      if |parts| < 6 then None else ParseColumns(parts)
  }

  /** The role is never a reason to skip a row: whatever column 2 holds,
      the row yields a job exactly when it does with any other role. */
  lemma RoleNeverSkips(parts: seq<string>, role: string)
    requires |parts| >= 6
    ensures ParseColumns(parts[2 := role]).Some? <==> ParseColumns(parts).Some?
  {
    assert parts[2 := role][1] == parts[1] && parts[2 := role][5] == parts[5];
  }

  /** A line with a column separator, without `---` and with at least five
      `|` is read by its columns. */
  lemma ParseRowColumns(line: string)
    requires '|' in line && !Contains(line, "---") && CountChar(line, '|') >= 5
    ensures |Split(line, '|')| >= 6 && ParseRow(line) == ParseColumns(Split(line, '|'))
  {
    SplitCount(line, '|');
  }

  /** A company cell: the name in bold. */
  function CompanyCell(name: string): string {
    CompanyOpen + name + CompanyClose
  }

  /** An apply cell: a link to `url`. */
  function LinkCell(url: string): string {
    LinkOpen + url + "\">Apply</a>"
  }

  /** A row of the feed, `|<strong>company</strong>|role|||<a href="url">Apply</a>|`:
      the company, role and link columns filled, the location and salary
      columns empty. */
  function Row(company: string, role: string, url: string): string {
    Join(["", CompanyCell(company), role, "", "", LinkCell(url), ""], '|')
  }

  /** The company pattern reads back the name of a company cell. */
  lemma CompanyCellRoundTrip(name: string)
    requires '<' !in name && '\n' !in name
    ensures CompanyMatch(CompanyCell(name)) == Some(name)
  {
    var s := CompanyCell(name);
    var e := |CompanyOpen| + |name|;
    assert s[..|CompanyOpen|] == CompanyOpen;
    assert s[e..e + |CompanyClose|] == CompanyClose;
    assert At(s, CompanyOpen, 0);
    assert At(s, CompanyClose, e);
    forall m | |CompanyOpen| <= m < e ensures !At(s, CompanyClose, m) {
      assert s[m] == name[m - |CompanyOpen|];
      assert s[m..m + |CompanyClose|][0] == s[m];
    }
    assert s[|CompanyOpen|..e] == name;
    assert '\n' !in s;
    CompanyMatchOnLine(s);
  }

  /** The link pattern reads back the target of an apply cell. */
  lemma LinkCellRoundTrip(url: string)
    requires url != [] && '"' !in url
    ensures LinkMatch(LinkCell(url)) == Some(url)
  {
    var s := LinkCell(url);
    var e := |LinkOpen| + |url|;
    assert s[..|LinkOpen|] == LinkOpen;
    assert At(s, LinkOpen, 0);
    assert s[e] == '"';
    forall m | |LinkOpen| <= m < e ensures s[m] != '"' {
      assert s[m] == url[m - |LinkOpen|];
    }
    assert s[|LinkOpen|..e] == url;
    assert LinkAt(s, 0) == Some(url);
  }

  /** The columns of a rendered row, as `split("|")` finds them. */
  lemma RowColumns(company: string, role: string, url: string)
    requires '|' !in company && '|' !in role && '|' !in url
    ensures Split(Row(company, role, url), '|') == ["", CompanyCell(company), role, "", "", LinkCell(url), ""]
  {
    var parts := ["", CompanyCell(company), role, "", "", LinkCell(url), ""];
    assert '|' !in parts[1] && '|' !in parts[5];
    SplitJoin(parts, '|');
  }

  /** Two texts without `---` make none when joined at a character other
      than `-`. */
  lemma NoMarkAcross(a: string, b: string)
    requires !Contains(a, "---") && !Contains(b, "---")
    requires (a != [] && a[|a| - 1] != '-') || (b != [] && b[0] != '-')
    ensures !Contains(a + b, "---")
  {
    var s := a + b;
    forall k | 0 <= k <= |s| - 3 ensures !At(s, "---", k) {
      if k + 3 <= |a| {
        assert s[k..k + 3] == a[k..k + 3];
        assert !At(a, "---", k);
      } else if k >= |a| {
        assert s[k..k + 3] == b[k - |a|..k - |a| + 3];
        assert !At(b, "---", k - |a|);
      } else {
        assert s[k..k + 3][|a| - 1 - k] == s[|a| - 1] == a[|a| - 1];
        assert s[k..k + 3][|a| - k] == s[|a|] == b[0];
      }
    }
  }

  /** Pieces without `---`, joined by a separator other than `-`, make
      no `---`. */
  lemma {:induction false} JoinNoMark(parts: seq<string>, sep: char)
    requires sep != '-' && forall k | 0 <= k < |parts| :: !Contains(parts[k], "---")
    ensures !Contains(Join(parts, sep), "---")
  {
    if |parts| > 1 {
      JoinNoMark(parts[1..], sep);
      NoMarkAcross(parts[0], [sep]);
      NoMarkAcross(parts[0] + [sep], Join(parts[1..], sep));
    }
  }

  /** A rendered row holds a column separator and, when its fields hold no
      `---`, no separator-row marker: the markup around each field holds
      no `-` next to it. */
  lemma RowIsNoSeparator(company: string, role: string, url: string)
    requires !Contains(company, "---") && !Contains(role, "---") && !Contains(url, "---")
    ensures '|' in Row(company, role, url) && !Contains(Row(company, role, url), "---")
  {
    NotContainsChar(CompanyOpen, "---", 0);
    NotContainsChar(CompanyClose, "---", 0);
    NotContainsChar(LinkOpen, "---", 0);
    NotContainsChar("\">Apply</a>", "---", 0);
    NoMarkAcross(CompanyOpen, company);
    NoMarkAcross(CompanyOpen + company, CompanyClose);
    NoMarkAcross(LinkOpen, url);
    NoMarkAcross(LinkOpen + url, "\">Apply</a>");
    var parts := ["", CompanyCell(company), role, "", "", LinkCell(url), ""];
    JoinNoMark(parts, '|');
    assert Row(company, role, url)[0] == '|';
  }

  /** A row rendered from a posting parses back to it, with the role
      stripped, as long as no field holds a column separator or `---`, the
      company holds no `<` and no line break, and the link holds no `"`
      and holds `http`. */
  lemma RowRoundTrip(company: string, role: string, url: string)
    requires '|' !in company && '|' !in role && '|' !in url
    requires !Contains(company, "---") && !Contains(role, "---") && !Contains(url, "---")
    requires '<' !in company && '\n' !in company
    requires '"' !in url && Contains(url, "http")
    ensures ParseRow(Row(company, role, url)) == Some(Job(company, Trim(role, IsSpace), url))
  {
    var line := Row(company, role, url);
    RowColumns(company, role, url);
    RowIsNoSeparator(company, role, url);
    var parts := Split(line, '|');
    assert ParseRow(line) == ParseColumns(parts);
    CompanyCellRoundTrip(company);
    LinkCellRoundTrip(url);
  }

  /** A row needs at least five `|` characters, that is six pieces. */
  lemma RowNeedsFivePipes(line: string)
    requires CountChar(line, '|') < 5
    ensures ParseRow(line).None?
  {
    SplitCount(line, '|');
  }

  /** On a line (no line break), the job's company is the reference reading
      of column 1, its role is column 2 stripped, and none of its three
      fields runs across a column boundary. */
  lemma RowWithinColumns(line: string)
    requires '\n' !in line && ParseRow(line).Some?
    ensures |Split(line, '|')| >= 6
    ensures Some(ParseRow(line).value.company) == BetweenTags(Split(line, '|')[1])
    ensures ParseRow(line).value.role == Trim(Split(line, '|')[2], IsSpace)
    ensures '|' !in ParseRow(line).value.company && '|' !in ParseRow(line).value.role
    ensures '|' !in ParseRow(line).value.url
  {
    var parts := Split(line, '|');
    assert |parts| >= 6 && ParseRow(line) == ParseColumns(parts);
    NoCharInPart(line, '|', 1, '\n');
    CompanyInColumn(parts[1]);
    TrimKeepsOut(parts[2], IsSpace, '|');
    LinkInColumn(parts[5]);
  }

  /** A company found in a column of a line is the reference reading of the
      column and lies inside it. */
  lemma CompanyInColumn(col: string)
    requires '\n' !in col && '|' !in col && CompanyMatch(col).Some?
    ensures Some(CompanyMatch(col).value) == BetweenTags(col)
    ensures '|' !in CompanyMatch(col).value
  {
    CompanyMatchOnLine(col);
    var i := Find(col, CompanyOpen, 0).value;
    var j := Find(col, CompanyClose, i + |CompanyOpen|).value;
    NotInSlice(col, '|', i + |CompanyOpen|, j);
  }

  /** A link found in a column lies inside it. */
  lemma LinkInColumn(col: string)
    requires '|' !in col && LinkMatch(col).Some?
    ensures '|' !in LinkMatch(col).value
  {
    var url := LinkMatch(col).value;
    var k :| 0 <= k <= |col| && LinkAt(col, k) == Some(url);
    NotInSlice(col, '|', k + |LinkOpen|, k + |LinkOpen| + |url|);
  }

  /** A character that does not occur in `s` occurs in none of its pieces. */
  lemma NoCharInPart(s: string, sep: char, k: nat, c: char)
    requires c !in s && k < |Split(s, sep)|
    ensures c !in Split(s, sep)[k]
  {
    var parts := Split(s, sep);
    if c in parts[k] {
      var m :| 0 <= m < |parts[k]| && parts[k][m] == c;
      JoinHolds(parts, sep, k, m);
    }
  }

  /** Every character of a piece appears in the joined string. */
  lemma {:induction false} JoinHolds(parts: seq<string>, sep: char, k: nat, m: nat)
    requires k < |parts| && m < |parts[k]|
    ensures parts[k][m] in Join(parts, sep)
  {
    if |parts| > 1 {
      var tail := Join(parts[1..], sep);
      assert Join(parts, sep) == parts[0] + [sep] + tail;
      if k == 0 {
        assert Join(parts, sep)[m] == parts[0][m];
      } else {
        JoinHolds(parts[1..], sep, k - 1, m);
        var x :| 0 <= x < |tail| && tail[x] == parts[k][m];
        assert Join(parts, sep)[|parts[0]| + 1 + x] == tail[x];
      }
    }
  }

  /** The jobs of a sequence of lines, one line after the other, where `row`
      says what each line contributes: at most one job per line. */
  function JobsOfLines(lines: seq<string>, row: string -> Option<Job>): (jobs: seq<Job>)
    ensures |jobs| <= |lines|
  {
    if lines == [] then []
    else
      (match row(lines[0]) case None => [] case Some(job) => [job]) + JobsOfLines(lines[1..], row)
  }

  /** Output order follows line order: the jobs of `a + b` are those of
      `a` followed by those of `b`. */
  lemma {:induction false} JobsOfLinesAppend(a: seq<string>, b: seq<string>, row: string -> Option<Job>)
    ensures JobsOfLines(a + b, row) == JobsOfLines(a, row) + JobsOfLines(b, row)
  {
    if a != [] {
      assert (a + b)[0] == a[0] && (a + b)[1..] == a[1..] + b;
      JobsOfLinesAppend(a[1..], b, row);
      var head: seq<Job> := match row(a[0]) case None => [] case Some(job) => [job];
      assert JobsOfLines(a + b, row) == head + JobsOfLines(a[1..] + b, row);
      assert JobsOfLines(a, row) == head + JobsOfLines(a[1..], row);
      var x, y := JobsOfLines(a[1..], row), JobsOfLines(b, row);
      assert head + (x + y) == (head + x) + y;
    } else {
      assert a + b == b;
    }
  }

  /** A job is emitted exactly when some line yields it. */
  lemma {:induction false} JobsOfLinesMember(lines: seq<string>, row: string -> Option<Job>, job: Job)
    ensures job in JobsOfLines(lines, row) <==> exists k | 0 <= k < |lines| :: row(lines[k]) == Some(job)
  {
    if lines != [] {
      JobsOfLinesMember(lines[1..], row, job);
      if exists k | 0 <= k < |lines| :: row(lines[k]) == Some(job) {
        var k :| 0 <= k < |lines| && row(lines[k]) == Some(job);
        if k > 0 { assert lines[1..][k - 1] == lines[k]; }
      }
      if exists k | 0 <= k < |lines[1..]| :: row(lines[1..][k]) == Some(job) {
        var k :| 0 <= k < |lines[1..]| && row(lines[1..][k]) == Some(job);
        assert lines[k + 1] == lines[1..][k];
      }
    }
  }

  /** One more line adds its job, if it yields one. */
  lemma JobsOfNextLine(lines: seq<string>, i: nat, row: string -> Option<Job>, job: Option<Job>)
    requires i < |lines| && job == row(lines[i])
    ensures JobsOfLines(lines[..i + 1], row)
            == JobsOfLines(lines[..i], row) + (if job.Some? then [job.value] else [])
  {
    PrefixSnoc(lines, i);
    JobsOfLinesAppend(lines[..i], [lines[i]], row);
  }

  /** A posting that `_parse_markdown_links` keeps: its link is non-empty,
      holds no `"` and holds `http`. */
  predicate Usable(job: Job) {
    job.url != [] && '"' !in job.url && Contains(job.url, "http")
  }

  /** Every job the rows of some lines yield is usable. */
  lemma {:induction false} RowJobsUsable(lines: seq<string>)
    ensures forall k | 0 <= k < |JobsOfLines(lines, ParseRow)| :: Usable(JobsOfLines(lines, ParseRow)[k])
  {
    if lines != [] {
      RowJobsUsable(lines[1..]);
    }
  }

  /** What `_parse_markdown_links` returns for a whole document: at most one
      job per line, each of them usable. */
  function ParseDocument(content: string): (jobs: seq<Job>)
    ensures |jobs| <= CountChar(content, '\n') + 1
    ensures forall k | 0 <= k < |jobs| :: Usable(jobs[k])
  {
    SplitCount(content, '\n');
    RowJobsUsable(Split(content, '\n'));
    JobsOfLines(Split(content, '\n'), ParseRow)
  }

  /** Lines are independent: a document made of two parts joined by a line
      break yields the jobs of the first part, then those of the second. */
  lemma ParseDocumentAppend(a: string, b: string)
    ensures ParseDocument(a + "\n" + b) == ParseDocument(a) + ParseDocument(b)
  {
    SplitAppend(a, b, '\n');
    JobsOfLinesAppend(Split(a, '\n'), Split(b, '\n'), ParseRow);
  }

  /** Every job of a document comes from one of its lines: its link
      contains `http`, and its company is the text between the first
      `<strong>` of that line's column 1 and the first `</strong>` after it. */
  lemma ParseDocumentJob(content: string, job: Job)
    requires job in ParseDocument(content)
    ensures Contains(job.url, "http") && job.url != [] && '"' !in job.url
    ensures exists line | line in Split(content, '\n') :: ParseRow(line) == Some(job)
                          && Some(job.company) == BetweenTags(Split(line, '|')[1])
  {
    var lines := Split(content, '\n');
    JobsOfLinesMember(lines, ParseRow, job);
    var k :| 0 <= k < |lines| && ParseRow(lines[k]) == Some(job);
    RowWithinColumns(lines[k]);
    assert lines[k] in lines;
  }

  /** The body of the loop of `_parse_markdown_links` for one line: each
      failed check skips the line (`continue`), otherwise the job is found. */
  method ParseLine(line: string) returns (job: Option<Job>)
    ensures job == ParseRow(line)
  {
    if '|' !in line || Contains(line, "---") {
      return None;
    }
    var parts := Split(line, '|');
    if |parts| < 6 {
      return None;
    }
    assert ParseRow(line) == ParseColumns(parts);
    var companyMatch := CompanyMatch(parts[1]);
    if companyMatch.None? {
      return None;
    }
    var company := companyMatch.value;
    var role := Trim(parts[2], IsSpace);
    var urlMatch := LinkMatch(parts[5]);
    if urlMatch.None? {
      return None;
    }
    var url := urlMatch.value;
    if url != [] && Contains(url, "http") {
      return Some(Job(company, role, url));
    }
    return None;
  }

  /** `_parse_markdown_links`: the lines of the document are visited in
      order and the job of each line that yields one is appended. */
  method ParseMarkdownLinks(content: string) returns (jobs: seq<Job>)
    ensures jobs == ParseDocument(content)
  {
    jobs := [];
    var lines := Split(content, '\n');
    for i := 0 to |lines|
      invariant jobs == JobsOfLines(lines[..i], ParseRow)
    {
      var job := ParseLine(lines[i]);
      JobsOfNextLine(lines, i, ParseRow, job);
      if job.Some? {
        jobs := jobs + [job.value];
      }
    }
    assert lines[..|lines|] == lines;
  }

  /** Where the feed is read from. */
  const BaseUrl := "https://raw.githubusercontent.com/speedyapply/2026-AI-College-Jobs/main/"
  const TargetFiles: seq<string> := ["NEW_GRAD_USA.md"]

  /** The jobs of the files of `files` whose download succeeded, file after
      file; `fetch` gives the body of the response for a URL, or `None` when
      the request raised. */
  function Collected(files: seq<string>, fetch: string -> Option<string>): (jobs: seq<Job>)
    ensures forall k | 0 <= k < |jobs| :: Usable(jobs[k])
    ensures (forall f | f in files :: fetch(BaseUrl + f).None?) ==> jobs == []
  {
    if files == [] then []
    else
      (match fetch(BaseUrl + files[0])
       case None => []
       case Some(text) => ParseDocument(text))
      + Collected(files[1..], fetch)
  }

  class JobCollector {
    /** The jobs found by the last call of `FetchJobLinks`. */
    var jobs: seq<Job>

    constructor ()
      ensures jobs == []
    {
      jobs := [];
    }

    /** `fetch_job_links`: download every target file, parse the ones that
        arrived, remember the result and return it. */
    method FetchJobLinks(fetch: string -> Option<string>) returns (all: seq<Job>)
      modifies this
      ensures all == Collected(TargetFiles, fetch)
      ensures jobs == all
    {
      all := [];
      for f := 0 to |TargetFiles|
        invariant all + Collected(TargetFiles[f..], fetch) == Collected(TargetFiles, fetch)
      {
        assert TargetFiles[f..][1..] == TargetFiles[f + 1..];
        var response := fetch(BaseUrl + TargetFiles[f]);
        if response.Some? {
          var found := ParseMarkdownLinks(response.value);
          all := all + found;
        }
      }
      jobs := all;
    }
  }
}
