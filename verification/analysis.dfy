/** The analysis loop of main.py: every line goes through `parse_line`; each parsed record adds one
    to the total, each failed attempt adds one to its address's count, and an alert is raised for
    an address at the moment its count equals the threshold. The summary follows the loop.

    The first part defines, for the records parsed so far, what the loop's variables should hold;
    the lemmas after it say what those definitions mean; `Ingest` is the loop body and `Analyze`
    the loop itself. */
module Analysis {
  import opened Models
  import opened Engine
  import opened ParseFacts
  import opened Summary

  // ---------------------------------------------------------------------------------------------
  // Specification of the loop.
  // ---------------------------------------------------------------------------------------------

  /** `str.lower()` on one character, for ASCII letters. `Lower` and `LowerChar` are here so that the
      failure test reads as the source writes it; the only values they are applied to are the two
      statuses `parse_line` can return, on which FailureIsFailedStatus evaluates them. */
  function LowerChar(c: char): char {
    if 'A' <= c <= 'Z' then (c as int + 32) as char else c
  }

  /** `str.lower()`, for ASCII letters. */
  function Lower(s: string): string {
    if s == [] then [] else [LowerChar(s[0])] + Lower(s[1..])
  }

  /** `entry.status.lower() == "failed"`. */
  predicate IsFailure(e: LogEntry) {
    Lower(e.status) == "failed"
  }

  /** `parse_line` applied to every line. */
  function ParseEach(lines: seq<string>): seq<Option<LogEntry>> {
    if lines == [] then [] else [Parse(lines[0])] + ParseEach(lines[1..])
  }

  /** The records among parse results, in order: `if not entry: continue` skips the others. */
  function Records(results: seq<Option<LogEntry>>): seq<LogEntry> {
    if results == [] then []
    else (if results[0].Some? then [results[0].value] else []) + Records(results[1..])
  }

  /** The records the loop sees: one per line that `parse_line` accepts, in order. */
  function Entries(lines: seq<string>): seq<LogEntry> {
    Records(ParseEach(lines))
  }

  /** The number of failed attempts from `ip` among `es`. */
  function FailureCount(es: seq<LogEntry>, ip: string): nat {
    if es == [] then 0
    else (if IsFailure(es[0]) && es[0].ipAddress == ip then 1 else 0) + FailureCount(es[1..], ip)
  }

  /** The keys of `failed_attempts` in insertion order: each address at its first failed attempt. */
  function Keys(es: seq<LogEntry>): seq<string> {
    if es == [] then []
    else
      var ks := Keys(es[..|es| - 1]);
      var e := es[|es| - 1];
      if IsFailure(e) && e.ipAddress !in ks then ks + [e.ipAddress] else ks
  }

  /** `failed_attempts` after `es`: each key mapped to its number of failed attempts. */
  function FailureMap(es: seq<LogEntry>): map<string, nat> {
    map ip | ip in Keys(es) :: FailureCount(es, ip)
  }

  /** The alerts raised while reading `es`: after a failed attempt, its address when the address's
      count has just become equal to the threshold. */
  function Alerts(es: seq<LogEntry>, threshold: int): seq<string> {
    if es == [] then []
    else
      var prev := Alerts(es[..|es| - 1], threshold);
      var e := es[|es| - 1];
      if IsFailure(e) && FailureCount(es, e.ipAddress) == threshold then prev + [e.ipAddress] else prev
  }

  /** No element occurs twice. */
  predicate Distinct(xs: seq<string>) {
    forall i, j :: 0 <= i < j < |xs| ==> xs[i] != xs[j]
  }

  // ---------------------------------------------------------------------------------------------
  // What the specification means.
  // ---------------------------------------------------------------------------------------------

  /** Lower-casing a status `parse_line` can return gives "failed" exactly for "Failed". */
  lemma FailureIsFailedStatus(e: LogEntry)
    requires e.status == "Failed" || e.status == "Accepted"
    ensures IsFailure(e) <==> e.status == "Failed"
  {
    if e.status == "Failed" {
      assert Lower(e.status) == [LowerChar('F')] + Lower("ailed");
      assert Lower("ailed") == "ailed";
    } else {
      assert Lower(e.status)[0] == LowerChar('A') == 'a';
    }
  }

  /** A record `parse_line` returns counts as a failed attempt exactly when its status is
      "Failed"; an "Accepted" record changes no count. */
  lemma ParsedFailure(line: string)
    requires Parse(line).Some?
    ensures IsFailure(Parse(line).value) <==> Parse(line).value.status == "Failed"
  {
    ParseFields(line);
    FailureIsFailedStatus(Parse(line).value);
  }

  lemma {:induction false} ParseEachConcat(a: seq<string>, b: seq<string>)
    ensures ParseEach(a + b) == ParseEach(a) + ParseEach(b)
  {
    if a == [] {
      assert a + b == b;
    } else {
      assert (a + b)[0] == a[0] && (a + b)[1..] == a[1..] + b;
      ParseEachConcat(a[1..], b);
      assert ParseEach(a + b) == [Parse(a[0])] + (ParseEach(a[1..]) + ParseEach(b));
    }
  }

  lemma {:induction false} RecordsConcat(a: seq<Option<LogEntry>>, b: seq<Option<LogEntry>>)
    ensures Records(a + b) == Records(a) + Records(b)
  {
    if a == [] {
      assert a + b == b;
    } else {
      var p := if a[0].Some? then [a[0].value] else [];
      assert (a + b)[0] == a[0] && (a + b)[1..] == a[1..] + b;
      RecordsConcat(a[1..], b);
      assert Records(a + b) == p + (Records(a[1..]) + Records(b));
      assert Records(a) == p + Records(a[1..]);
    }
  }

  /** A rejected line adds no record; an accepted line adds its record at the end. */
  lemma EntriesStep(lines: seq<string>, i: nat)
    requires i < |lines|
    ensures Entries(lines[..i + 1])
            == Entries(lines[..i]) + (if Parse(lines[i]).Some? then [Parse(lines[i]).value] else [])
  {
    assert lines[..i + 1] == lines[..i] + [lines[i]];
    EntriesAppend(lines[..i], lines[i]);
  }

  lemma EntriesAppend(a: seq<string>, line: string)
    ensures Entries(a + [line]) == Entries(a) + (if Parse(line).Some? then [Parse(line).value] else [])
  {
    ParseEachConcat(a, [line]);
    ParseEachOne(line);
    RecordsAppend(ParseEach(a), Parse(line));
  }

  lemma ParseEachOne(line: string)
    ensures ParseEach([line]) == [Parse(line)]
  {
    assert [line][1..] == [];
  }

  lemma RecordsAppend(rs: seq<Option<LogEntry>>, r: Option<LogEntry>)
    ensures Records(rs + [r]) == Records(rs) + (if r.Some? then [r.value] else [])
  {
    RecordsConcat(rs, [r]);
    assert [r][1..] == [];
  }

  lemma {:induction false} FailureCountConcat(a: seq<LogEntry>, b: seq<LogEntry>, ip: string)
    ensures FailureCount(a + b, ip) == FailureCount(a, ip) + FailureCount(b, ip)
  {
    if a == [] {
      assert a + b == b;
    } else {
      assert (a + b)[1..] == a[1..] + b;
      FailureCountConcat(a[1..], b, ip);
    }
  }

  /** A record adds one to the count of its own address if it is a failed attempt, and changes
      no other count. */
  lemma FailureCountStep(es: seq<LogEntry>, e: LogEntry, ip: string)
    ensures FailureCount(es + [e], ip)
            == FailureCount(es, ip) + (if IsFailure(e) && e.ipAddress == ip then 1 else 0)
  {
    FailureCountConcat(es, [e], ip);
  }

  /** Counts never decrease as more records are read. */
  lemma FailureCountMonotone(es: seq<LogEntry>, more: seq<LogEntry>, ip: string)
    ensures FailureCount(es, ip) <= FailureCount(es + more, ip)
  {
    FailureCountConcat(es, more, ip);
  }

  /** The dictionary's keys are exactly the addresses with at least one failed attempt, each once. */
  lemma {:induction false} KeysSpec(es: seq<LogEntry>)
    ensures forall ip :: ip in Keys(es) <==> FailureCount(es, ip) > 0
    ensures Distinct(Keys(es))
  {
    if es != [] {
      var init := es[..|es| - 1];
      var e := es[|es| - 1];
      assert es == init + [e];
      KeysSpec(init);
      forall ip ensures FailureCount(es, ip) == FailureCount(init, ip) + (if IsFailure(e) && e.ipAddress == ip then 1 else 0) {
        FailureCountStep(init, e, ip);
      }
    }
  }

  /** An address is alerted on exactly when the threshold is positive and its count reached it,
      and never more than once. */
  lemma {:induction false} AlertsSpec(es: seq<LogEntry>, threshold: int)
    ensures forall ip :: ip in Alerts(es, threshold) <==> 1 <= threshold <= FailureCount(es, ip)
    ensures Distinct(Alerts(es, threshold))
  {
    if es != [] {
      var init := es[..|es| - 1];
      var e := es[|es| - 1];
      assert es == init + [e];
      AlertsSpec(init, threshold);
      forall ip ensures FailureCount(es, ip) == FailureCount(init, ip) + (if IsFailure(e) && e.ipAddress == ip then 1 else 0) {
        FailureCountStep(init, e, ip);
      }
    }
  }

  /** A threshold of zero or less raises no alert at all. */
  lemma NoAlertsBelowOne(es: seq<LogEntry>, threshold: int)
    requires threshold <= 0
    ensures Alerts(es, threshold) == []
  {
    AlertsSpec(es, threshold);
  }

  /** The flagged items are the addresses with at least one failed attempt and at least
      `threshold` of them, each with its count. */
  lemma FlaggedSpec(es: seq<LogEntry>, threshold: int)
    ensures forall o :: o in Flagged(Keys(es), FailureMap(es), threshold)
              <==> o.count == FailureCount(es, o.ip) && o.count > 0 && o.count >= threshold
  {
    KeysSpec(es);
  }

  /** The summary says there is no suspicious activity exactly when no address has both a failed
      attempt and a count at the threshold. */
  lemma VerdictSpec(es: seq<LogEntry>, threshold: int)
    ensures Summarize(Keys(es), FailureMap(es), threshold).NoSuspiciousActivity?
            <==> forall ip :: FailureCount(es, ip) > 0 ==> FailureCount(es, ip) < threshold
  {
    var keys, m := Keys(es), FailureMap(es);
    KeysSpec(es);
    if Summarize(keys, m, threshold).NoSuspiciousActivity? {
      forall ip | FailureCount(es, ip) > 0
        ensures FailureCount(es, ip) < threshold
      {
        assert ip in keys;
        assert m[ip] == FailureCount(es, ip);
      }
    } else {
      var ip :| ip in keys && m[ip] >= threshold;
      assert FailureCount(es, ip) > 0;
    }
  }

  /** Every address an alert was raised for is flagged in the summary, with its count. */
  lemma AlertedIsFlagged(es: seq<LogEntry>, threshold: int, ip: string)
    requires ip in Alerts(es, threshold)
    ensures Offender(ip, FailureCount(es, ip)) in Flagged(Keys(es), FailureMap(es), threshold)
  {
    AlertsSpec(es, threshold);
    FlaggedSpec(es, threshold);
  }

  /** With a threshold of at least one, the summary finds suspicious activity exactly when an
      alert was raised. */
  lemma VerdictMatchesAlerts(es: seq<LogEntry>, threshold: int)
    requires threshold >= 1
    ensures Summarize(Keys(es), FailureMap(es), threshold).NoSuspiciousActivity?
            <==> Alerts(es, threshold) == []
  {
    VerdictSpec(es, threshold);
    AlertsSpec(es, threshold);
    var a := Alerts(es, threshold);
    if a != [] {
      var ip := a[0];
      assert ip in a;
      assert FailureCount(es, ip) > 0 && !(FailureCount(es, ip) < threshold);
    } else {
      forall ip | FailureCount(es, ip) > 0
        ensures FailureCount(es, ip) < threshold
      {
        assert ip !in a;
      }
    }
  }

  /** What reading one more record does to the dictionary's keys and values and to the alerts:
      exactly what one pass of the loop body does to its variables. */
  lemma Step(es: seq<LogEntry>, e: LogEntry, threshold: int)
    ensures var m, m' := FailureMap(es), FailureMap(es + [e]);
      && Keys(es + [e])
         == (if IsFailure(e) && e.ipAddress !in Keys(es) then Keys(es) + [e.ipAddress] else Keys(es))
      && m' == (if !IsFailure(e) then m
                else if e.ipAddress in m then m[e.ipAddress := m[e.ipAddress] + 1]
                else m[e.ipAddress := 1])
      && Alerts(es + [e], threshold)
         == (if IsFailure(e) && m'[e.ipAddress] == threshold
             then Alerts(es, threshold) + [e.ipAddress] else Alerts(es, threshold))
  {
    var es' := es + [e];
    assert es'[..|es'| - 1] == es;
    KeysSpec(es);
    KeysSpec(es');
    forall ip ensures FailureCount(es', ip) == FailureCount(es, ip) + (if IsFailure(e) && e.ipAddress == ip then 1 else 0) {
      FailureCountStep(es, e, ip);
    }
  }

  // ---------------------------------------------------------------------------------------------
  // The loop.
  // ---------------------------------------------------------------------------------------------

  /** The loop body for a record `parse_line` returned: count it, and if it is a failed attempt,
      count it against its address and alert when that count has just reached the threshold.
      When the variables hold what the specification gives for the records `es` read so far, they
      hold what it gives for `es` and `e` afterwards. */
  method Ingest(ghost es: seq<LogEntry>, order: seq<string>, failedAttempts: map<string, nat>,
                totalProcessed: nat, alerts: seq<string>, e: LogEntry, threshold: int)
    returns (order': seq<string>, failedAttempts': map<string, nat>, totalProcessed': nat,
             alerts': seq<string>)
    requires order == Keys(es) && failedAttempts == FailureMap(es)
    requires totalProcessed == |es| && alerts == Alerts(es, threshold)
    ensures order' == Keys(es + [e]) && failedAttempts' == FailureMap(es + [e])
    ensures totalProcessed' == |es + [e]| && alerts' == Alerts(es + [e], threshold)
  {
    Step(es, e, threshold);
    order', failedAttempts', alerts' := order, failedAttempts, alerts;
    totalProcessed' := totalProcessed + 1;
    if IsFailure(e) {
      var ip := e.ipAddress;
      if ip !in failedAttempts' {
        order' := order' + [ip];
        failedAttempts' := failedAttempts'[ip := 1];
      } else {
        failedAttempts' := failedAttempts'[ip := failedAttempts'[ip] + 1];
      }
      if failedAttempts'[ip] == threshold {
        alerts' := alerts' + [ip];
      }
    }
  }

  /** main.py's loop over the lines of the log, followed by its summary: the alerts in the order
      they are printed, the total of processed records, and the summary's verdict. */
  method Analyze(lines: seq<string>, threshold: int)
    returns (alerts: seq<string>, totalProcessed: nat, verdict: Verdict)
    ensures totalProcessed == |Entries(lines)|
    ensures alerts == Alerts(Entries(lines), threshold)
    ensures verdict == Summarize(Keys(Entries(lines)), FailureMap(Entries(lines)), threshold)
  {
    var failedAttempts: map<string, nat> := map[];
    var order: seq<string> := [];
    totalProcessed := 0;
    alerts := [];
    ghost var es: seq<LogEntry> := [];
    var i := 0;
    while i < |lines|
      invariant i <= |lines| && es == Entries(lines[..i])
      invariant order == Keys(es) && failedAttempts == FailureMap(es)
      invariant totalProcessed == |es| && alerts == Alerts(es, threshold)
    {
      EntriesStep(lines, i);
      var entry := Parse(lines[i]);
      if entry.Some? {
        var e := entry.value;
        order, failedAttempts, totalProcessed, alerts :=
          Ingest(es, order, failedAttempts, totalProcessed, alerts, e, threshold);
        es := es + [e];
      }
      i := i + 1;
    }
    assert lines[..i] == lines;
    verdict := Summarize(order, failedAttempts, threshold);
  }
}
