/** The browser client's handling of a download reply: the live postAndDownloadMultiple
    (front/script.js:102-203, which replaces the earlier definition at lines 30-100) and
    postAndDownload (front/script.js:213-279). Each reply is checked, named, or turned into
    an error whose message is then matched against a fixed list of cases. */
module ClientDownload {
  import opened Wrappers
  import opened Strings
  import opened Dates

  /** NODES (front/script.js:2-5): the node names the client knows. */
  const Nodes: map<string, string> := map["node1" := "/downlog/node01", "node2" := "/downlog/node02"]

  /** The names a plain object literal such as NODES inherits from Object.prototype.
      Reading one of them from NODES gives a function (or, for __proto__, Object.prototype
      itself), and either is truthy. */
  const InheritedNames: set<string> :=
    {"constructor", "__proto__", "__defineGetter__", "__defineSetter__", "__lookupGetter__",
     "__lookupSetter__", "hasOwnProperty", "isPrototypeOf", "propertyIsEnumerable",
     "toLocaleString", "toString", "valueOf"}

  /** `NODES[node]` is truthy (front/script.js:112-113): an own key of NODES, or a name
      found on Object.prototype, whose value the task then goes on to fetch from. */
  predicate Resolves(node: string) {
    node in Nodes || node in InheritedNames
  }

  /** CONTUR (front/script.js:7). */
  const Contur: string := "preprod"

  /** The fixed words of two thrown messages (front/script.js:114, 134), which the catch
      block looks for again (front/script.js:182, 184). */
  const UnknownNodeText: string := "Неизвестный node"
  const WrongTypeText: string := "неожиданный тип файла"

  // ---------------------------------------------------------------------------
  // Pieces of JavaScript regular expressions

  /** The /i flag compares ASCII letters without regard to case. */
  function LowerAscii(c: char): char {
    if 'A' <= c <= 'Z' then (c as int + 32) as char else c
  }

  predicate MatchesAtIgnoringCase(s: string, i: int, lit: string) {
    0 <= i && i + |lit| <= |s| && forall k | 0 <= k < |lit| :: LowerAscii(s[i + k]) == LowerAscii(lit[k])
  }

  /** Text equal to a literal matches it, whatever the case rule. */
  lemma MatchesExactly(s: string, i: nat, lit: string)
    requires i + |lit| <= |s| && s[i..i + |lit|] == lit
    ensures MatchesAtIgnoringCase(s, i, lit)
  {
    forall k | 0 <= k < |lit|
      ensures LowerAscii(s[i + k]) == LowerAscii(lit[k])
    {
      assert s[i + k] == s[i..i + |lit|][k];
    }
  }

  /** The end of the longest run of characters with property `p` that starts at i. */
  function RunEnd(s: string, i: nat, p: char -> bool): (k: nat)
    requires i <= |s|
    ensures i <= k <= |s|
    ensures forall j | i <= j < k :: p(s[j])
    ensures k < |s| ==> !p(s[k])
    decreases |s| - i
  {
    if i < |s| && p(s[i]) then RunEnd(s, i + 1, p) else i
  }

  lemma {:induction false} RunEndAcross(s: string, i: nat, k: nat, p: char -> bool)
    requires i <= k <= |s|
    requires forall j | i <= j < k :: p(s[j])
    requires k == |s| || !p(s[k])
    ensures RunEnd(s, i, p) == k
    decreases k - i
  {
    if i < k {
      RunEndAcross(s, i + 1, k, p);
    }
  }

  /** \w */
  predicate IsWordChar(c: char) {
    'a' <= c <= 'z' || 'A' <= c <= 'Z' || '0' <= c <= '9' || c == '_'
  }

  /** \s, for the ASCII white space characters and the no-break space. */
  predicate IsSpace(c: char) {
    c == ' ' || c == '\t' || c == '\n' || c == '\r' || c == 11 as char || c == 12 as char || c == ' '
  }

  predicate NotQuote(c: char) {
    c != '"'
  }

  // ---------------------------------------------------------------------------
  // The saved file's name

  /** disposition.match(/filename="?([^"]+)"?/i), group 1: after the leftmost "filename="
      (in any case) that works, an optional quote, then the longest run of non-quotes. */
  function FilenameCapture(s: string): (r: Option<string>)
    ensures r.Some? ==> r.value != "" && forall k | 0 <= k < |r.value| :: r.value[k] != '"'
  {
    FilenameFrom(s, 0)
  }

  function FilenameFrom(s: string, i: nat): (r: Option<string>)
    requires i <= |s|
    ensures r.Some? ==> r.value != "" && forall k | 0 <= k < |r.value| :: r.value[k] != '"'
    decreases |s| - i
  {
    if i + 9 > |s| then None
    else if MatchesAtIgnoringCase(s, i, "filename=") then
      var start := if i + 9 < |s| && s[i + 9] == '"' then i + 10 else i + 9;
      var e := RunEnd(s, start, NotQuote);
      if e > start then Some(s[start..e]) else FilenameFrom(s, i + 1)
    else FilenameFrom(s, i + 1)
  }

  /** The length of ".zip", ".gz" or ".tar", in any case, at i; 0 when none is there. */
  function ExtensionAt(s: string, i: nat): (n: nat)
    ensures n > 0 ==> i + n <= |s| && s[i] == '.'
  {
    if !(i < |s| && s[i] == '.') then 0
    else if MatchesAtIgnoringCase(s, i, ".zip") then 4
    else if MatchesAtIgnoringCase(s, i, ".gz") then 3
    else if MatchesAtIgnoringCase(s, i, ".tar") then 4
    else 0
  }

  /** name.replace(/\.(zip|gz|tar)/i, ''): the leftmost such extension is removed, wherever
      it stands, and only that one. */
  function RemoveFirstExtension(s: string): string {
    RemoveExtensionFrom(s, 0)
  }

  function RemoveExtensionFrom(s: string, i: nat): string
    requires i <= |s|
    decreases |s| - i
  {
    if i == |s| then s
    else if ExtensionAt(s, i) > 0 then s[..i] + s[i + ExtensionAt(s, i)..]
    else RemoveExtensionFrom(s, i + 1)
  }

  /** name.replace(/\.zip$/i, ''): a final ".zip", in any case, is removed. */
  function StripZipSuffix(s: string): string {
    if |s| >= 4 && MatchesAtIgnoringCase(s, |s| - 4, ".zip") then s[..|s| - 4] else s
  }

  /** The name a node's archive is saved under (front/script.js:137-140). */
  function MultiDownloadName(node: string, disposition: string): string {
    var baseName := match FilenameCapture(disposition)
      case Some(x) => RemoveFirstExtension(x)
      case None => "files";
    Contur + "-" + node + "-" + baseName + ".zip"
  }

  /** The name the scanner archive is saved under (front/script.js:245-248). */
  function ScanDownloadName(disposition: string): string {
    var baseName := match FilenameCapture(disposition)
      case Some(x) => StripZipSuffix(x)
      case None => "files";
    "scan-" + baseName + ".zip"
  }

  /** The Content-Type test (front/script.js:133, 236). */
  predicate AcceptedContentType(ct: string) {
    Occurs(ct, "zip") || Occurs(ct, "application/octet-stream")
  }

  // ---------------------------------------------------------------------------
  // Replies and the errors they raise

  /** A reply as the client reads it: status code and text, body text, Content-Type and
      Content-Disposition headers (empty when absent), and the body's size. */
  datatype Reply = Reply(status: nat, statusText: string, text: string,
                         contentType: string, disposition: string, size: nat)

  /** What one fetch gives: a reply, or a rejection with its error's name and message
      (an AbortError on timeout, a TypeError "Failed to fetch" when the network fails). */
  datatype Fetched = Responded(reply: Reply) | Rejected(name: string, message: string)

  /** The decimal text of a number, as a template literal writes it: the digits of the
      number, with no leading zero. */
  function NatText(n: nat): (r: string)
    ensures r != "" && AllDigits(r) && Decimal(r) == n
    ensures |r| > 1 ==> r[0] != '0'
  {
    if n < 10 then [DigitChar(n)]
    else
      var front := NatText(n / 10);
      assert (front + [DigitChar(n % 10)])[..|front|] == front;
      front + [DigitChar(n % 10)]
  }

  /** text.slice(0, 100). */
  function Slice100(s: string): string {
    if |s| <= 100 then s else s[..100]
  }

  /** One node's task in postAndDownloadMultiple: the file name it saves, or the message of
      the Error it throws (front/script.js:111-151). */
  function NodeDownload(node: string, fetched: Fetched): Result<string, string> {
    if !Resolves(node) then Failure(UnknownNodeText + ": " + node)
    else
      match fetched
      case Rejected(_, message) => Failure(message)
      case Responded(r) =>
        if !(200 <= r.status <= 299) then
          Failure(node + ": HTTP " + NatText(r.status) + " " + r.statusText
                  + (if r.text != "" then ": " + Slice100(r.text) else ""))
        else if !AcceptedContentType(r.contentType) then
          Failure(node + ": " + WrongTypeText + " (" + r.contentType + ")")
        else Success(MultiDownloadName(node, r.disposition))
  }

  /** The messages of the failed tasks, in node order. */
  function FailureMessages(rs: seq<Result<string, string>>): seq<string> {
    if rs == [] then []
    else
      var last := rs[|rs| - 1];
      FailureMessages(rs[..|rs| - 1]) + (if last.Failure? then [last.error] else [])
  }

  /** Array.prototype.join. */
  function JoinWith(ms: seq<string>, sep: string): string {
    if ms == [] then ""
    else if |ms| == 1 then ms[0]
    else JoinWith(ms[..|ms| - 1], sep) + sep + ms[|ms| - 1]
  }

  // ---------------------------------------------------------------------------
  // The error message of postAndDownloadMultiple

  /** The cases of the catch block (front/script.js:169-188). */
  datatype Alert =
    | Timeout
    | NetworkDown
    | HttpStatus(node: string, status: string)
    | UnknownError
    | NotZip
    | Config(message: string)
    | Raw(message: string)

  /** The text shown for each case. */
  function AlertText(a: Alert): string {
    match a
    case Timeout => "⏰ Таймаут ожидания ответа (10 минут)"
    case NetworkDown => "🌐 Сетевая ошибка (Failed to fetch):\n• Нет соединения с node1/node2\n"
    case HttpStatus(n, st) =>
      "❌ " + n + ": HTTP " + st
        + "\n• 400/422 - неверные параметры запроса\n• 500/502 - ошибка бэкенда\n• 503 - node перегружен"
    case UnknownError => "Неизвестная ошибка"
    case NotZip => "📄 Бэкенд вернул не ZIP-архив\n• Проверьте endpoint\n• Убедитесь, что сервер возвращает ZIP"
    case Config(m) => "⚠️ Конфигурация: " + m + "\nПроверьте объект NODES"
    case Raw(m) => "❌ " + m
  }

  /** The rest of /(\w+):?\s*HTTP\s+(\d+)/i once the word ends at j: the status digits. */
  function HttpTail(s: string, j: nat): (r: Option<string>)
    requires j <= |s|
    ensures r.Some? ==> r.value != "" && AllDigits(r.value)
  {
    var k := if j < |s| && s[j] == ':' then j + 1 else j;
    var k2 := RunEnd(s, k, IsSpace);
    if MatchesAtIgnoringCase(s, k2, "HTTP") then
      var k3 := RunEnd(s, k2 + 4, IsSpace);
      var k4 := RunEnd(s, k3, IsDigit);
      if k3 > k2 + 4 && k4 > k3 then Some(s[k3..k4]) else None
    else None
  }

  /** What the two groups of a match hold: a word and a run of digits. */
  predicate HttpGroups(word: string, digits: string) {
    word != "" && (forall k | 0 <= k < |word| :: IsWordChar(word[k])) && digits != "" && AllDigits(digits)
  }

  /** The word ending at j, backtracking from the longest. */
  function TryWord(s: string, i: nat, j: nat): (r: Option<(string, string)>)
    requires i <= j <= |s|
    requires forall k | i <= k < j :: IsWordChar(s[k])
    ensures r.Some? ==> HttpGroups(r.value.0, r.value.1)
    decreases j - i
  {
    if j == i then None
    else
      match HttpTail(s, j)
      case Some(digits) => Some((s[i..j], digits))
      case None => TryWord(s, i, j - 1)
  }

  /** The leftmost match of /(\w+):?\s*HTTP\s+(\d+)/i at or after i: groups 1 and 2. */
  function HttpMatchFrom(s: string, i: nat): (r: Option<(string, string)>)
    requires i <= |s|
    ensures r.Some? ==> HttpGroups(r.value.0, r.value.1)
    decreases |s| - i
  {
    if i == |s| then None
    else
      match TryWord(s, i, RunEnd(s, i, IsWordChar))
      case Some(groups) => Some(groups)
      case None => HttpMatchFrom(s, i + 1)
  }

  /** The case a caught error falls into; the first test that holds wins. Group 1 of the
      regex is never empty, so the `'Node'` fallback never applies. */
  function Classify(name: string, message: string): Alert {
    if name == "AbortError" then Timeout
    else if Occurs(message, "Failed to fetch") then NetworkDown
    else if Occurs(message, "HTTP") then
      match HttpMatchFrom(message, 0)
      case Some((n, st)) => HttpStatus(n, st)
      case None => UnknownError
    else if Occurs(message, WrongTypeText) then NotZip
    else if Occurs(message, UnknownNodeText) then Config(message)
    else Raw(message)
  }

  /** How a multi-node download ends: every archive saved, or the case of the error. */
  datatype Outcome = Saved(filenames: seq<string>) | Failed(alert: Alert)

  function NodeResults(nodes: seq<string>, fetched: seq<Fetched>): (rs: seq<Result<string, string>>)
    requires |nodes| == |fetched|
    ensures |rs| == |nodes| && forall i | 0 <= i < |nodes| :: rs[i] == NodeDownload(nodes[i], fetched[i])
  {
    seq(|nodes|, i requires 0 <= i < |nodes| => NodeDownload(nodes[i], fetched[i]))
  }

  /** postAndDownloadMultiple: all tasks settle; if any failed, their messages are joined
      with "; " into a new Error, whose name is always "Error", and classified. */
  function MultipleOutcome(nodes: seq<string>, fetched: seq<Fetched>): Outcome
    requires |nodes| == |fetched|
  {
    var rs := NodeResults(nodes, fetched);
    var errors := FailureMessages(rs);
    if errors != [] then Failed(Classify("Error", JoinWith(errors, "; ")))
    else Saved(seq(|rs|, i requires 0 <= i < |rs| => if rs[i].Success? then rs[i].value else ""))
  }

  // ---------------------------------------------------------------------------
  // The scanner download

  /** postAndDownload up to its catch block: the file name, or the name and message of the
      error thrown (front/script.js:223-248). */
  function ScanDownload(fetched: Fetched): Result<string, (string, string)> {
    match fetched
    case Rejected(name, message) => Failure((name, message))
    case Responded(r) =>
      if !(200 <= r.status <= 299) then
        Failure(("Error", "HTTP " + NatText(r.status) + " " + (if r.text != "" then Slice100(r.text) else "")))
      else if !AcceptedContentType(r.contentType) then
        Failure(("Error", "unexpected content-type: " + r.contentType))
      else if r.size == 0 then Failure(("Error", "empty response"))
      else Success(ScanDownloadName(r.disposition))
  }

  /** The catch block of postAndDownload (front/script.js:263-272). */
  function ScanErrorText(name: string, message: string): string {
    if name == "AbortError" then "timeout 10s"
    else if message != "" && Occurs(message, "Failed to fetch") then "Backend down"
    else if message != "" && |message| >= 4 && message[..4] == "HTTP" then Slice100(message)
    else if message != "" then message
    else "unknown error"
  }

  /** The status line postAndDownload leaves: the saved name, or the error text. */
  function ScanOutcome(fetched: Fetched): Result<string, string> {
    match ScanDownload(fetched)
    case Success(name) => Success(name)
    case Failure((n, m)) => Failure(ScanErrorText(n, m))
  }

  // ---------------------------------------------------------------------------
  // Lemmas

  predicate Lacks(s: string, c: char) {
    forall k | 0 <= k < |s| :: s[k] != c
  }

  lemma LacksConcat(a: string, b: string, c: char)
    requires Lacks(a, c) && Lacks(b, c)
    ensures Lacks(a + b, c)
  {
    forall k | 0 <= k < |a + b|
      ensures (a + b)[k] != c
    {
      if k >= |a| {
        assert (a + b)[k] == b[k - |a|];
      }
    }
  }

  /** A string without the character c contains no string that has it. */
  lemma AbsentChar(s: string, sub: string, c: char, at: nat)
    requires at < |sub| && sub[at] == c
    requires Lacks(s, c)
    ensures !Occurs(s, sub)
  {
    forall i | 0 <= i <= |s| - |sub|
      ensures !OccursAt(s, sub, i)
    {
      assert s[i..i + |sub|][at] == s[i + at];
    }
  }

  /** The server's download reply, "application/zip", is accepted; the empty reply it
      sends when no file is found carries validation's "application/json; charset=utf-8"
      and is refused. */
  lemma ServerContentTypes()
    ensures AcceptedContentType("application/zip")
    ensures !AcceptedContentType("application/json; charset=utf-8")
  {
    OccursInFrame("application/", "zip", "");
    assert "application/" + "zip" + "" == "application/zip";
    var json := "application/json; charset=utf-8";
    AbsentChar(json, "zip", 'z', 0);
    AbsentChar(json, "application/octet-stream", 'm', 23);
  }

  /** A quoted or bare file name is captured whole. */
  lemma FilenameOfHeader(x: string)
    requires x != "" && forall k | 0 <= k < |x| :: x[k] != '"'
    ensures FilenameCapture("filename=\"" + x + "\"") == Some(x)
    ensures FilenameCapture("filename=" + x) == Some(x)
  {
    var q := "filename=\"" + x + "\"";
    assert MatchesAtIgnoringCase(q, 0, "filename=");
    RunEndAcross(q, 10, 10 + |x|, NotQuote);
    assert q[10..10 + |x|] == x;
    FilenameOfBareHeader(x);
  }

  lemma FilenameOfBareHeader(x: string)
    requires x != "" && forall k | 0 <= k < |x| :: x[k] != '"'
    ensures FilenameCapture("filename=" + x) == Some(x)
  {
    var b := "filename=" + x;
    assert MatchesAtIgnoringCase(b, 0, "filename=");
    assert b[9] == x[0];
    assert forall k | 9 <= k < |b| :: b[k] == x[k - 9];
    RunEndAcross(b, 9, |b|, NotQuote);
    assert b[9..|b|] == x;
  }

  /** The server answers with a bare "attachment", which names no file: the archives are
      saved as "preprod-<node>-files.zip" and "scan-files.zip". */
  lemma ServerDispositionNames(node: string)
    ensures MultiDownloadName(node, "attachment") == "preprod-" + node + "-files.zip"
    ensures ScanDownloadName("attachment") == "scan-files.zip"
  {
    assert !MatchesAtIgnoringCase("attachment", 0, "filename=") by {
      assert LowerAscii("attachment"[0]) != LowerAscii("filename="[0]);
    }
    assert !MatchesAtIgnoringCase("attachment", 1, "filename=") by {
      assert LowerAscii("attachment"[1]) != LowerAscii("filename="[0]);
    }
    assert FilenameFrom("attachment", 2) == None;
  }

  lemma {:induction false} RemoveSkipsDotless(s: string, i: nat, j: nat)
    requires i <= j <= |s|
    requires forall k | i <= k < j :: s[k] != '.'
    ensures RemoveExtensionFrom(s, i) == RemoveExtensionFrom(s, j)
    decreases j - i
  {
    if i < j {
      RemoveSkipsDotless(s, i + 1, j);
    }
  }

  lemma ExtensionRemoved(s: string, i: nat)
    requires i < |s| && ExtensionAt(s, i) > 0
    ensures RemoveExtensionFrom(s, i) == s[..i] + s[i + ExtensionAt(s, i)..]
  {
  }

  /** The multi-node name loses the first archive extension only: "x.zip" gives "x", and
      "x.tar.gz" gives "x.gz", for any name x without a dot. */
  lemma FirstExtensionOnly(x: string)
    requires forall k | 0 <= k < |x| :: x[k] != '.'
    ensures RemoveFirstExtension(x + ".zip") == x
    ensures RemoveFirstExtension(x + ".tar.gz") == x + ".gz"
  {
    ZipExtensionRemoved(x);
    TarBeforeGz(x);
  }

  lemma ZipExtensionRemoved(x: string)
    requires forall k | 0 <= k < |x| :: x[k] != '.'
    ensures RemoveFirstExtension(x + ".zip") == x
  {
    var z := x + ".zip";
    RemoveSkipsDotless(z, 0, |x|);
    assert z[|x|..|x| + 4] == ".zip";
    MatchesExactly(z, |x|, ".zip");
    assert ExtensionAt(z, |x|) == 4;
    ExtensionRemoved(z, |x|);
    assert z[..|x|] == x && z[|x| + 4..] == "";
  }

  lemma TarBeforeGz(x: string)
    requires forall k | 0 <= k < |x| :: x[k] != '.'
    ensures RemoveFirstExtension(x + ".tar.gz") == x + ".gz"
  {
    var t := x + ".tar.gz";
    RemoveSkipsDotless(t, 0, |x|);
    assert t[|x|] == '.' && t[|x| + 1] == 't';
    assert !MatchesAtIgnoringCase(t, |x|, ".zip") by {
      assert LowerAscii(t[|x| + 1]) != LowerAscii(".zip"[1]);
    }
    assert !MatchesAtIgnoringCase(t, |x|, ".gz") by {
      assert LowerAscii(t[|x| + 1]) != LowerAscii(".gz"[1]);
    }
    assert t[|x|..|x| + 4] == ".tar";
    MatchesExactly(t, |x|, ".tar");
    assert ExtensionAt(t, |x|) == 4;
    ExtensionRemoved(t, |x|);
    assert t[..|x|] == x;
    assert forall k | 0 <= k < 3 :: t[|x| + 4..][k] == ".gz"[k];
    assert t[|x| + 4..] == ".gz";
  }

  /** The search is not anchored to a dot-separated suffix: the ".gz" inside "app.gzip.log"
      is removed, giving "appip.log". */
  lemma ExtensionInsideName()
    ensures RemoveFirstExtension("app.gzip.log") == "appip.log"
  {
    var s := "app.gzip.log";
    RemoveSkipsDotless(s, 0, 3);
    GzInsideName();
    ExtensionRemoved(s, 3);
    assert s[..3] + s[6..] == "appip.log";
  }

  lemma GzInsideName()
    ensures ExtensionAt("app.gzip.log", 3) == 3
  {
    var s := "app.gzip.log";
    assert !MatchesAtIgnoringCase(s, 3, ".zip") by {
      assert LowerAscii(s[4]) != LowerAscii(".zip"[1]);
    }
    assert s[3..6] == ".gz";
    MatchesExactly(s, 3, ".gz");
  }

  /** The scanner name loses exactly one final ".zip" and nothing else. */
  lemma StripZipSuffixOnly(x: string)
    ensures StripZipSuffix(x + ".zip") == x
    ensures StripZipSuffix(x + ".ZIP") == x
    ensures !(|x| >= 4 && MatchesAtIgnoringCase(x, |x| - 4, ".zip")) ==> StripZipSuffix(x) == x
  {
    var z := x + ".zip";
    assert MatchesAtIgnoringCase(z, |z| - 4, ".zip");
    assert z[..|z| - 4] == x;
    var u := x + ".ZIP";
    assert MatchesAtIgnoringCase(u, |u| - 4, ".zip");
    assert u[..|u| - 4] == x;
  }

  /** The node name and status code are read back from the message the node's task
      throws for an error reply, when it is the first message of the joined text. */
  lemma {:induction false} HttpMessageParsed(node: string, status: nat, rest: string)
    requires node != "" && forall k | 0 <= k < |node| :: IsWordChar(node[k])
    requires rest != "" && rest[0] == ' '
    ensures HttpMatchFrom(node + ": HTTP " + NatText(status) + rest, 0) == Some((node, NatText(status)))
    ensures Occurs(node + ": HTTP " + NatText(status) + rest, "HTTP")
  {
    var st := NatText(status);
    var s := node + ": HTTP " + st + rest;
    HttpMessageLayout(node, st, rest);
    WordRun(s, node);
    HttpTailAt(s, |node|, st);
  }

  /** Where the pieces of an error-status message stand. */
  lemma HttpMessageLayout(node: string, st: string, rest: string)
    requires rest != "" && rest[0] == ' '
    ensures var s := node + ": HTTP " + st + rest; var n := |node|;
      && |s| >= n + 8 + |st| && s[..n] == node
      && s[n] == ':' && s[n + 1] == ' ' && s[n + 2] == 'H' && s[n + 3] == 'T'
      && s[n + 4] == 'T' && s[n + 5] == 'P' && s[n + 6] == ' '
      && s[n + 7..n + 7 + |st|] == st && s[n + 7 + |st|] == ' '
  {
  }

  /** A word followed by ':' is the longest word run at the start. */
  lemma WordRun(s: string, node: string)
    requires forall k | 0 <= k < |node| :: IsWordChar(node[k])
    requires |node| < |s| && s[..|node|] == node && s[|node|] == ':'
    ensures RunEnd(s, 0, IsWordChar) == |node|
  {
    assert forall k | 0 <= k < |node| :: s[k] == node[k];
    RunEndAcross(s, 0, |node|, IsWordChar);
  }

  /** The tail of the regex read at fixed positions: ':', one space, "HTTP", one space,
      then the digits up to a space; it also shows where "HTTP" occurs. */
  lemma HttpTailAt(s: string, n: nat, st: string)
    requires st != "" && AllDigits(st) && n + 8 + |st| <= |s|
    requires s[n] == ':' && s[n + 1] == ' ' && s[n + 2] == 'H' && s[n + 3] == 'T'
    requires s[n + 4] == 'T' && s[n + 5] == 'P' && s[n + 6] == ' '
    requires s[n + 7..n + 7 + |st|] == st && s[n + 7 + |st|] == ' '
    ensures HttpTail(s, n) == Some(st)
    ensures OccursAt(s, "HTTP", n + 2)
  {
    SingleSpace(s, n + 1);
    SingleSpace(s, n + 6);
    DigitRun(s, n + 7, st);
    assert s[n + 2..n + 6] == "HTTP";
    MatchesExactly(s, n + 2, "HTTP");
  }

  lemma SingleSpace(s: string, i: nat)
    requires i + 1 < |s| && s[i] == ' ' && !IsSpace(s[i + 1])
    ensures RunEnd(s, i, IsSpace) == i + 1
  {
    RunEndAcross(s, i, i + 1, IsSpace);
  }

  lemma DigitRun(s: string, i: nat, st: string)
    requires AllDigits(st) && i + |st| < |s| && s[i..i + |st|] == st && !IsDigit(s[i + |st|])
    ensures RunEnd(s, i, IsDigit) == i + |st|
  {
    assert forall k | i <= k < i + |st| :: s[k] == st[k - i];
    RunEndAcross(s, i, i + |st|, IsDigit);
  }

  /** With one node, a failing task's message alone is classified. */
  lemma SingleNodeFailure(node: string, f: Fetched)
    requires NodeDownload(node, f).Failure?
    ensures MultipleOutcome([node], [f]) == Failed(Classify("Error", NodeDownload(node, f).error))
  {
    var m := NodeDownload(node, f).error;
    assert NodeResults([node], [f]) == [Failure(m)];
    assert FailureMessages([Failure(m)]) == [m];
  }

  /** A single node answering with an error status is reported as that node and status,
      unless the reply's texts mention "Failed to fetch". */
  lemma NodeHttpErrorReported(node: string, r: Reply)
    requires node in Nodes && !(200 <= r.status <= 299)
    requires NodeDownload(node, Responded(r)).Failure?
    requires !Occurs(NodeDownload(node, Responded(r)).error, "Failed to fetch")
    ensures MultipleOutcome([node], [Responded(r)]) == Failed(HttpStatus(node, NatText(r.status)))
  {
    var m := NodeDownload(node, Responded(r)).error;
    var rest := " " + r.statusText + (if r.text != "" then ": " + Slice100(r.text) else "");
    assert m == node + ": HTTP " + NatText(r.status) + rest;
    assert node == "node1" || node == "node2";
    HttpMessageParsed(node, r.status, rest);
    SingleNodeFailure(node, Responded(r));
  }

  /** The message thrown for an unexpected content type from a known node. */
  lemma WrongTypeMessage(node: string, ct: string)
    requires node == "node1" || node == "node2"
    requires ct == "application/json; charset=utf-8"
    ensures Classify("Error", node + ": " + WrongTypeText + " (" + ct + ")") == NotZip
  {
    var tail := " (" + ct + ")";
    var m := node + ": " + WrongTypeText + tail;
    assert Lacks(node + ": ", 'F') && Lacks(WrongTypeText, 'F') && Lacks(tail, 'F');
    LacksConcat(node + ": ", WrongTypeText, 'F');
    LacksConcat(node + ": " + WrongTypeText, tail, 'F');
    AbsentChar(m, "Failed to fetch", 'F', 0);
    assert Lacks(node + ": ", 'H') && Lacks(WrongTypeText, 'H') && Lacks(tail, 'H');
    LacksConcat(node + ": ", WrongTypeText, 'H');
    LacksConcat(node + ": " + WrongTypeText, tail, 'H');
    AbsentChar(m, "HTTP", 'H', 0);
    OccursInFrame(node + ": ", WrongTypeText, tail);
    assert m == node + ": " + WrongTypeText + " (" + ct + ")";
  }

  /** When the server finds no file it answers 200 with an empty JSON-typed body; the
      client reports that as a reply that is not a zip archive. */
  lemma EmptyServerReplyIsNotZip(node: string, r: Reply)
    requires node in Nodes && 200 <= r.status <= 299
    requires r.contentType == "application/json; charset=utf-8"
    ensures MultipleOutcome([node], [Responded(r)]) == Failed(NotZip)
  {
    ServerContentTypes();
    assert node == "node1" || node == "node2";
    SingleNodeFailure(node, Responded(r));
    WrongTypeMessage(node, r.contentType);
  }

  /** A network failure on a node NODES resolves is reported as such; that includes a
      name inherited from Object.prototype, whose task fetches instead of throwing. */
  lemma NetworkFailureReported(node: string, name: string)
    requires Resolves(node)
    ensures MultipleOutcome([node], [Rejected(name, "Failed to fetch")]) == Failed(NetworkDown)
  {
    SingleNodeFailure(node, Rejected(name, "Failed to fetch"));
    assert OccursAt("Failed to fetch", "Failed to fetch", 0);
  }

  /** A node name that NODES does not resolve is reported as a configuration error carrying
      the thrown message, for names made of lower-case letters and digits. */
  lemma UnknownNodeReported(node: string, f: Fetched)
    requires !Resolves(node)
    requires forall k | 0 <= k < |node| :: 'a' <= node[k] <= 'z' || '0' <= node[k] <= '9'
    ensures MultipleOutcome([node], [f]) == Failed(Config(UnknownNodeText + ": " + node))
  {
    SingleNodeFailure(node, f);
    UnknownNodeClassified(node);
  }

  /** A name inherited from Object.prototype, such as "constructor", is not reported as an
      unknown node: its task fetches, and a zip reply is saved under a name built from it. */
  lemma InheritedNameIsFetched(node: string, r: Reply)
    requires node in InheritedNames
    requires 200 <= r.status <= 299 && AcceptedContentType(r.contentType)
    ensures MultipleOutcome([node], [Responded(r)]) == Saved([MultiDownloadName(node, r.disposition)])
  {
    var rs := NodeResults([node], [Responded(r)]);
    assert rs == [Success(MultiDownloadName(node, r.disposition))];
    assert FailureMessages(rs) == [];
  }

  lemma UnknownNodeClassified(node: string)
    requires forall k | 0 <= k < |node| :: 'a' <= node[k] <= 'z' || '0' <= node[k] <= '9'
    ensures Classify("Error", UnknownNodeText + ": " + node) == Config(UnknownNodeText + ": " + node)
  {
    UnknownNodeMessage(node, 'F', "Failed to fetch", 0);
    UnknownNodeMessage(node, 'H', "HTTP", 0);
    UnknownNodeMessage(node, 'ж', WrongTypeText, 3);
    OccursInFrame("", UnknownNodeText, ": " + node);
    assert "" + UnknownNodeText + (": " + node) == UnknownNodeText + ": " + node;
  }

  /** The unknown-node message contains no text with a character outside the fixed words
      and lower-case letters and digits. */
  lemma UnknownNodeMessage(node: string, c: char, sub: string, at: nat)
    requires forall k | 0 <= k < |node| :: 'a' <= node[k] <= 'z' || '0' <= node[k] <= '9'
    requires c == 'F' || c == 'H' || c == 'ж'
    requires at < |sub| && sub[at] == c
    ensures !Occurs(UnknownNodeText + ": " + node, sub)
  {
    assert Lacks(UnknownNodeText, c) && Lacks(": ", c) && Lacks(node, c);
    LacksConcat(UnknownNodeText, ": ", c);
    LacksConcat(UnknownNodeText + ": ", node, c);
    AbsentChar(UnknownNodeText + ": " + node, sub, c, at);
  }

  lemma {:induction false} NoFailureMessages(rs: seq<Result<string, string>>)
    ensures FailureMessages(rs) == [] <==> forall i | 0 <= i < |rs| :: rs[i].Success?
  {
    if rs != [] {
      NoFailureMessages(rs[..|rs| - 1]);
      assert forall i | 0 <= i < |rs| - 1 :: rs[..|rs| - 1][i] == rs[i];
    }
  }

  /** A multi-node download saves every archive, under its derived name, exactly when no
      node's task fails; otherwise it ends in an error case, and never in the timeout case,
      because the error that reaches the catch block is always a fresh Error. */
  lemma MultipleOutcomeCases(nodes: seq<string>, fetched: seq<Fetched>)
    requires |nodes| == |fetched|
    ensures MultipleOutcome(nodes, fetched).Saved?
        <==> forall i | 0 <= i < |nodes| :: NodeDownload(nodes[i], fetched[i]).Success?
    ensures MultipleOutcome(nodes, fetched).Saved? ==>
      var names := MultipleOutcome(nodes, fetched).filenames;
      |names| == |nodes| &&
      forall i | 0 <= i < |nodes| ::
        Resolves(nodes[i]) && fetched[i].Responded?
        && names[i] == MultiDownloadName(nodes[i], fetched[i].reply.disposition)
    ensures MultipleOutcome(nodes, fetched).Failed? ==> MultipleOutcome(nodes, fetched).alert != Timeout
  {
    NoFailureMessages(NodeResults(nodes, fetched));
  }

  /** The scanner download, unlike the multi-node one, does report a timeout; an error
      status is shown as its message cut to 100 characters; an empty body is an error. */
  lemma ScanOutcomeCases(r: Reply, message: string)
    ensures ScanOutcome(Rejected("AbortError", message)) == Failure("timeout 10s")
    ensures 200 <= r.status <= 299 && AcceptedContentType(r.contentType) && r.size == 0
        ==> ScanOutcome(Responded(r)) == Failure("empty response")
    ensures 200 <= r.status <= 299 && AcceptedContentType(r.contentType) && r.size > 0
        ==> ScanOutcome(Responded(r)) == Success(ScanDownloadName(r.disposition))
    ensures !(200 <= r.status <= 299) ==>
      var m := ScanDownload(Responded(r)).error.1;
      (Occurs(m, "Failed to fetch") ==> ScanOutcome(Responded(r)) == Failure("Backend down"))
      && (!Occurs(m, "Failed to fetch") ==> ScanOutcome(Responded(r)) == Failure(Slice100(m)))
  {
    if !(200 <= r.status <= 299) {
      var m := ScanDownload(Responded(r)).error.1;
      assert m[..4] == "HTTP";
    }
  }
}
