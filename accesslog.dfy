/**
 * The field rules of the W3C access-log middleware: how the request
 * data gathered after the downstream handler returns becomes the
 * fields of one log record, and the fixed header block.
 */
module AccessLog {
  import opened Wrappers
  import opened GoStrings

  /** Placeholder the log writes for a missing value. */
  const Missing: string := "-"

  /**
   * The `x-c-user` field. `sessionUsername` is the username of the
   * request's session, `None` when the request has no session.
   */
  function UsernameField(sessionUsername: Option<string>): (r: string)
    ensures r != ""
    ensures sessionUsername.Some? && sessionUsername.value != "" ==> r == sessionUsername.value
    ensures sessionUsername.None? || sessionUsername.value == "" ==> r == Missing
  {
    if sessionUsername.Some? && sessionUsername.value != "" then sessionUsername.value else Missing
  }

  /**
   * The `c-ip` field: the host part of the remote address when
   * `splitHostPort` (the model of `net.SplitHostPort`) accepts it, the raw
   * remote address otherwise.
   */
  function IpField(remoteAddr: string, splitHostPort: string -> Option<string>): (r: string)
    ensures splitHostPort(remoteAddr).Some? ==> r == splitHostPort(remoteAddr).value
    ensures splitHostPort(remoteAddr).None? ==> r == remoteAddr
  {
    match splitHostPort(remoteAddr)
    case Some(host) => host
    case None => remoteAddr
  }

  /** The `cs-uri-query` field: the raw query verbatim, `-` when empty. */
  function QueryField(rawQuery: string): (r: string)
    ensures r != ""
    ensures rawQuery != "" ==> r == rawQuery
    ensures rawQuery == "" ==> r == Missing
  {
    if rawQuery == "" then Missing else rawQuery
  }

  /**
   * The `cs(X-Forwarded-For)` field: the last comma-separated entry of
   * the header with surrounding spaces trimmed, `-` when the header is empty.
   */
  function ForwardedForField(header: string): (r: string)
    ensures header == "" ==> r == Missing
    ensures header != "" ==> r == Trim(AfterLast(header, ','), ' ')
  {
    if header != "" then
      var parts := Split(header, ',');
      var last := if |parts| > 0 then parts[|parts| - 1] else header;
      Trim(last, ' ')
    else
      Missing
  }

  /**
   * For a non-empty header the field is a piece of the header's last
   * entry: it holds no comma and neither starts nor ends with a space.
   */
  lemma ForwardedForShape(header: string)
    requires header != ""
    ensures var r := ForwardedForField(header);
      Lacks(r, ',') && (r == [] || (r[0] != ' ' && r[|r| - 1] != ' '))
  {
  }

  /** A single-entry header is only trimmed. */
  lemma ForwardedForSingleEntry(header: string)
    requires header != "" && ',' !in header
    ensures ForwardedForField(header) == Trim(header, ' ')
  {
    AfterLastWhole(header, ',');
  }

  /** The `sc-status` field: a handler that never set a status answered 200. */
  function StatusField(statusCode: int): (r: int)
    ensures r != 0
    ensures statusCode != 0 ==> r == statusCode
    ensures statusCode == 0 ==> r == 200
  {
    if statusCode == 0 then 200 else statusCode
  }

  /**
   * The `time-taken` field in microseconds: Go's `Nanoseconds()/1000`, a
   * 64-bit division that truncates toward zero.
   */
  function TimeTakenField(elapsedNanos: int): (r: int)
    ensures elapsedNanos >= 0 ==> r * 1000 <= elapsedNanos < (r + 1) * 1000
    ensures elapsedNanos < 0 ==> (r - 1) * 1000 < elapsedNanos <= r * 1000
  {
    if elapsedNanos >= 0 then elapsedNanos / 1000 else -((-elapsedNanos) / 1000)
  }

  /** The W3C extended log fields of a record, in the order they are written. */
  const FieldNames: string :=
    "c-ip x-c-user date time cs-method cs-uri-stem cs-uri-query cs(X-Forwarded-For) sc-bytes sc-status time-taken"

  const FieldsLine: string := "#Fields: " + FieldNames

  /**
   * The header block written when a log file is started, one entry per
   * logger call; `startDate` is the formatted UTC start time.
   */
  function HeaderLines(startDate: string): (lines: seq<string>)
    ensures |lines| == 4
    ensures forall k :: 0 <= k < |lines| ==> |lines[k]| > 0 && lines[k][0] == '#'
    ensures lines[0] == "#Version: 1.0" && lines[1] == FieldsLine
    ensures lines[2] == "#Software: httpway accesslog"
    ensures IsSuffix(startDate, lines[3]) && lines[3][..|lines[3]| - |startDate|] == "#Start-Date: "
  {
    var start := "#Start-Date: " + startDate;
    assert start[0] == '#' && start[..|start| - |startDate|] == "#Start-Date: ";
    var lines := ["#Version: 1.0", FieldsLine, "#Software: httpway accesslog", start];
    assert lines[0][0] == '#' && lines[1][0] == '#' && lines[2][0] == '#';
    lines
  }
}
