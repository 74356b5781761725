/** The single-line parser of parser/engine.py: `LOG_PATTERN` searched in the stripped line.

    The pattern is
      (\w{3}\s+\d+\s\d{2}:\d{2}:\d{2}) .*? (Failed|Accepted) \s+password\s+for\s+
      (?:invalid\s+user\s+)? (.*?) \s+from\s+ (\S+)

    The first half of this module says declaratively what it means for the pattern to match a
    line at given split points (`IsMatch`) and in which order a backtracking engine tries those
    matches (`SplitFirst`). The second half is a hand-written matcher that searches in that order;
    the lemmas beside each of its functions prove that it returns the first match in that order
    and nothing when there is none.

    Most quantifiers of the pattern have only one way to match, because the class they repeat
    cannot match the character that must follow (`\s+` before a letter, `\d+` before `\s`,
    `\s+` before `\S+`). Five choices remain, and they are tried in this order:
      - the start position, lowest first (`re.search`);
      - the end of the lazy `.*?` before the status keyword, shortest first;
      - where the user name begins, furthest right first: the greedy `\s+` after "for" gives back
        one space at a time, and at its longest the optional "invalid user" group is tried before
        it is skipped; every name start reached through the group lies right of every name start
        reached without it, so this order is "name start descending";
      - the end of the lazy user name, shortest first;
      - the end of the greedy `\S+`, longest first. */
module Engine {
  import opened Models
  import opened Chars

  // ---------------------------------------------------------------------------------------------
  // Declarative side: one way the pattern matches, given by its split points.
  // ---------------------------------------------------------------------------------------------

  datatype Status = Failed | Accepted

  function Keyword(st: Status): string {
    match st
    case Failed => "Failed"
    case Accepted => "Accepted"
  }

  /** `\w{3}\s+\d+\s\d{2}:\d{2}:\d{2}`: the day digits occupy `[dayStart, dayEnd)`. */
  datatype Stamp = Stamp(dayStart: nat, dayEnd: nat)

  function StampEnd(st: Stamp): nat {
    st.dayEnd + 9
  }

  /** `\d{2}:\d{2}:\d{2}` at `i`. */
  predicate IsClock(s: string, i: nat) {
    i + 8 <= |s|
    && IsDigit(s[i]) && IsDigit(s[i + 1]) && s[i + 2] == ':'
    && IsDigit(s[i + 3]) && IsDigit(s[i + 4]) && s[i + 5] == ':'
    && IsDigit(s[i + 6]) && IsDigit(s[i + 7])
  }

  predicate StampShape(s: string, start: nat, st: Stamp) {
    start + 3 < st.dayStart < st.dayEnd < |s|
    && All(s, start, start + 3, Word) && All(s, start + 3, st.dayStart, Space)
    && All(s, st.dayStart, st.dayEnd, Digit) && IsSpace(s[st.dayEnd]) && IsClock(s, st.dayEnd + 1)
  }

  /** `\s+from\s+(\S+)`: "from" at `fromAt`, the address in `[ip, ipEnd)`. */
  datatype Tail = Tail(fromAt: nat, ip: nat, ipEnd: nat)

  predicate TailShape(s: string, e: nat, t: Tail) {
    e < t.fromAt && All(s, e, t.fromAt, Space) && LitAt(s, t.fromAt, "from")
    && t.fromAt + 4 < t.ip && All(s, t.fromAt + 4, t.ip, Space)
    && t.ip < t.ipEnd && All(s, t.ip, t.ipEnd, NonSpace)
  }

  /** The lazy user group `(.*?)` ending at `nameEnd`, then the tail. */
  datatype Rest = Rest(nameEnd: nat, tail: Tail)

  predicate RestShape(s: string, nameStart: nat, r: Rest) {
    All(s, nameStart, r.nameEnd, Dot) && TailShape(s, r.nameEnd, r.tail)
  }

  /** `invalid\s+user\s+` at `at`, with "user" at `userAt`, ending where the name starts. */
  predicate InvalidShape(s: string, at: nat, userAt: nat, nameStart: nat) {
    LitAt(s, at, "invalid") && at + 7 < userAt && All(s, at + 7, userAt, Space)
    && LitAt(s, userAt, "user") && userAt + 4 < nameStart && All(s, userAt + 4, nameStart, Space)
  }

  /** Everything after "for": `\s+` up to `gapEnd`, the optional group, the user name and the tail.
      Without the group, `userAt` and `nameStart` are both `gapEnd`. */
  datatype AfterFor = AfterFor(gapEnd: nat, invalid: bool, userAt: nat, nameStart: nat, rest: Rest)

  predicate AfterForShape(s: string, forEnd: nat, a: AfterFor) {
    forEnd < a.gapEnd && All(s, forEnd, a.gapEnd, Space)
    && (if a.invalid then InvalidShape(s, a.gapEnd, a.userAt, a.nameStart)
        else a.userAt == a.gapEnd && a.nameStart == a.gapEnd)
    && RestShape(s, a.nameStart, a.rest)
  }

  /** Everything from the status keyword on. */
  datatype Body = Body(status: Status, passwordAt: nat, forAt: nat, after: AfterFor)

  function KeywordEnd(k: nat, b: Body): nat {
    k + |Keyword(b.status)|
  }

  predicate BodyShape(s: string, k: nat, b: Body) {
    LitAt(s, k, Keyword(b.status))
    && KeywordEnd(k, b) < b.passwordAt && All(s, KeywordEnd(k, b), b.passwordAt, Space)
    && LitAt(s, b.passwordAt, "password")
    && b.passwordAt + 8 < b.forAt && All(s, b.passwordAt + 8, b.forAt, Space) && LitAt(s, b.forAt, "for")
    && AfterForShape(s, b.forAt + 3, b.after)
  }

  /** A whole match: the timestamp at `start`, the lazy gap up to the keyword at `k`, the body. */
  datatype Split = Split(start: nat, stamp: Stamp, k: nat, body: Body)

  predicate IsMatch(s: string, m: Split) {
    StampShape(s, m.start, m.stamp) && All(s, StampEnd(m.stamp), m.k, Dot) && BodyShape(s, m.k, m.body)
  }

  /** `r1` is tried no later than `r2`: shorter name first, then longer address first. */
  predicate RestFirst(r1: Rest, r2: Rest) {
    r1.nameEnd < r2.nameEnd || (r1.nameEnd == r2.nameEnd && r1.tail.ipEnd >= r2.tail.ipEnd)
  }

  /** `a1` is tried no later than `a2`: the name starting further right first. */
  predicate AfterForFirst(a1: AfterFor, a2: AfterFor) {
    a1.nameStart > a2.nameStart || (a1.nameStart == a2.nameStart && RestFirst(a1.rest, a2.rest))
  }

  /** `m1` is tried no later than `m2` by a backtracking search. */
  predicate SplitFirst(m1: Split, m2: Split) {
    m1.start < m2.start
    || (m1.start == m2.start
        && (m1.k < m2.k || (m1.k == m2.k && AfterForFirst(m1.body.after, m2.body.after))))
  }

  // ---------------------------------------------------------------------------------------------
  // The matcher.
  // ---------------------------------------------------------------------------------------------

  /** `\s+from\s+(\S+)` at `e`. */
  function MatchTail(s: string, e: nat): (r: Option<Tail>)
    requires e <= |s|
    ensures r.Some? ==> e < r.value.fromAt < r.value.ip < r.value.ipEnd <= |s|
  {
    var f := RunEnd(s, e, Space);
    if f == e || !LitAt(s, f, "from") then None
    else
      var ip := RunEnd(s, f + 4, Space);
      var ipEnd := RunEnd(s, ip, NonSpace);
      if ip == f + 4 || ipEnd == ip then None else Some(Tail(f, ip, ipEnd))
  }

  lemma MatchTailSound(s: string, e: nat)
    requires e <= |s|
    ensures MatchTail(s, e).Some? ==> TailShape(s, e, MatchTail(s, e).value)
  {
    RunIsLongest(s, e, Space);
    var f := RunEnd(s, e, Space);
    if f > e && LitAt(s, f, "from") {
      RunIsLongest(s, f + 4, Space);
      RunIsLongest(s, RunEnd(s, f + 4, Space), NonSpace);
    }
  }

  /** The tail matches wherever the pattern allows, with the longest address. */
  lemma MatchTailFirst(s: string, e: nat, t: Tail)
    requires e <= |s| && TailShape(s, e, t)
    ensures MatchTail(s, e).Some?
    ensures MatchTail(s, e).value.fromAt == t.fromAt && MatchTail(s, e).value.ip == t.ip
    ensures t.ipEnd <= MatchTail(s, e).value.ipEnd
  {
    assert s[t.fromAt] == "from"[0];
    RunBefore(s, e, t.fromAt, Space);
    RunBefore(s, t.fromAt + 4, t.ip, Space);
    RunWithin(s, t.ip, t.ipEnd, NonSpace);
  }

  /** The lazy user group starting at `e`: name ends `e`, `e + 1`, ... are tried in turn, while the
      name has no line feed. */
  function FindRest(s: string, e: nat): (r: Option<Rest>)
    requires e <= |s|
    ensures r.Some? ==> e <= r.value.nameEnd < r.value.tail.fromAt
    decreases |s| - e
  {
    match MatchTail(s, e)
    case Some(t) => Some(Rest(e, t))
    case None => if e < |s| && IsDot(s[e]) then FindRest(s, e + 1) else None
  }

  lemma {:induction false} FindRestSound(s: string, e: nat)
    requires e <= |s|
    ensures FindRest(s, e).Some? ==> RestShape(s, e, FindRest(s, e).value)
    decreases |s| - e
  {
    MatchTailSound(s, e);
    if MatchTail(s, e).None? && e < |s| && IsDot(s[e]) {
      FindRestSound(s, e + 1);
    }
  }

  lemma {:induction false} FindRestFirst(s: string, e: nat, r: Rest)
    requires e <= |s| && RestShape(s, e, r)
    ensures FindRest(s, e).Some? && RestFirst(FindRest(s, e).value, r)
    decreases |s| - e
  {
    if r.nameEnd == e {
      MatchTailFirst(s, e, r.tail);
    } else if MatchTail(s, e).None? {
      FindRestFirst(s, e + 1, r);
    }
  }

  /** Inside "invalid user": the greedy `\s+` before the name gives back one space at a time, so
      name starts `v`, `v - 1`, ..., `lo + 1` are tried in turn. */
  function FindName(s: string, lo: nat, v: nat): (r: Option<(nat, Rest)>)
    requires lo <= v <= |s|
    ensures r.Some? ==> lo < r.value.0 <= v
    decreases v
  {
    if v == lo then None
    else
      match FindRest(s, v)
      case Some(rest) => Some((v, rest))
      case None => FindName(s, lo, v - 1)
  }

  lemma {:induction false} FindNameSound(s: string, lo: nat, v: nat)
    requires lo <= v <= |s|
    ensures FindName(s, lo, v).Some? ==> RestShape(s, FindName(s, lo, v).value.0, FindName(s, lo, v).value.1)
    decreases v
  {
    if v > lo {
      FindRestSound(s, v);
      FindNameSound(s, lo, v - 1);
    }
  }

  lemma {:induction false} FindNameFirst(s: string, lo: nat, v: nat, v': nat, r: Rest)
    requires lo < v' <= v <= |s| && RestShape(s, v', r)
    ensures FindName(s, lo, v).Some?
    ensures var (n, rest) := FindName(s, lo, v).value; n > v' || (n == v' && RestFirst(rest, r))
    decreases v
  {
    if v' == v {
      FindRestFirst(s, v, r);
    } else if FindRest(s, v).None? {
      FindNameFirst(s, lo, v - 1, v', r);
    }
  }

  /** The optional group `invalid\s+user\s+` taken at `at`, followed by the rest of the pattern. */
  function MatchInvalid(s: string, at: nat): (r: Option<AfterFor>)
    requires at <= |s|
    ensures r.Some? ==> r.value.gapEnd == at && r.value.invalid && at + 11 < r.value.nameStart
  {
    if !LitAt(s, at, "invalid") then None
    else
      var userAt := RunEnd(s, at + 7, Space);
      if userAt == at + 7 || !LitAt(s, userAt, "user") then None
      else
        match FindName(s, userAt + 4, RunEnd(s, userAt + 4, Space))
        case None => None
        case Some((v, rest)) => Some(AfterFor(at, true, userAt, v, rest))
  }

  lemma MatchInvalidSound(s: string, at: nat)
    requires at <= |s|
    ensures var r := MatchInvalid(s, at);
      r.Some? ==> InvalidShape(s, at, r.value.userAt, r.value.nameStart)
                  && RestShape(s, r.value.nameStart, r.value.rest)
  {
    if LitAt(s, at, "invalid") {
      RunIsLongest(s, at + 7, Space);
      var userAt := RunEnd(s, at + 7, Space);
      if userAt > at + 7 && LitAt(s, userAt, "user") {
        var g := RunEnd(s, userAt + 4, Space);
        RunIsLongest(s, userAt + 4, Space);
        FindNameSound(s, userAt + 4, g);
        var n := FindName(s, userAt + 4, g);
        if n.Some? {
          AllSplit(s, userAt + 4, n.value.0, g, Space);
        }
      }
    }
  }

  lemma MatchInvalidFirst(s: string, at: nat, userAt: nat, v: nat, r: Rest)
    requires at <= |s| && InvalidShape(s, at, userAt, v) && RestShape(s, v, r)
    ensures MatchInvalid(s, at).Some?
    ensures var a := MatchInvalid(s, at).value;
      a.nameStart > v || (a.nameStart == v && RestFirst(a.rest, r))
  {
    assert s[userAt] == "user"[0];
    RunBefore(s, at + 7, userAt, Space);
    RunWithin(s, userAt + 4, v, Space);
    FindNameFirst(s, userAt + 4, RunEnd(s, userAt + 4, Space), v, r);
  }

  /** After "for": the greedy `\s+` ends at `gapEnd`, `gapEnd - 1`, ..., `forEnd + 1` in turn. */
  function FindAfterFor(s: string, forEnd: nat, gapEnd: nat): (r: Option<AfterFor>)
    requires forEnd <= gapEnd <= |s|
    ensures r.Some? ==> forEnd < r.value.gapEnd <= gapEnd
    decreases gapEnd, 1
  {
    if gapEnd == forEnd then None else TryGapEnd(s, forEnd, gapEnd)
  }

  /** One end of the `\s+` after "for": the group is tried before it is skipped; when both fail,
      the `\s+` gives back one more space. */
  function TryGapEnd(s: string, forEnd: nat, gapEnd: nat): (r: Option<AfterFor>)
    requires forEnd < gapEnd <= |s|
    ensures r.Some? ==> forEnd < r.value.gapEnd <= gapEnd
    decreases gapEnd, 0
  {
    match MatchInvalid(s, gapEnd)
    case Some(a) => Some(a)
    case None =>
      match FindRest(s, gapEnd)
      case Some(rest) => Some(AfterFor(gapEnd, false, gapEnd, gapEnd, rest))
      case None => FindAfterFor(s, forEnd, gapEnd - 1)
  }

  lemma {:induction false} FindAfterForSound(s: string, forEnd: nat, gapEnd: nat)
    requires All(s, forEnd, gapEnd, Space)
    ensures FindAfterFor(s, forEnd, gapEnd).Some? ==> AfterForShape(s, forEnd, FindAfterFor(s, forEnd, gapEnd).value)
    decreases gapEnd
  {
    if gapEnd > forEnd {
      assert FindAfterFor(s, forEnd, gapEnd) == TryGapEnd(s, forEnd, gapEnd);
      MatchInvalidSound(s, gapEnd);
      FindRestSound(s, gapEnd);
      AllSplit(s, forEnd, gapEnd - 1, gapEnd, Space);
      FindAfterForSound(s, forEnd, gapEnd - 1);
    }
  }

  lemma {:induction false} FindAfterForFirst(s: string, forEnd: nat, gapEnd: nat, a: AfterFor)
    requires All(s, forEnd, gapEnd, Space)
    requires AfterForShape(s, forEnd, a) && a.gapEnd <= gapEnd
    ensures FindAfterFor(s, forEnd, gapEnd).Some?
    ensures AfterForFirst(FindAfterFor(s, forEnd, gapEnd).value, a)
    decreases gapEnd
  {
    assert FindAfterFor(s, forEnd, gapEnd) == TryGapEnd(s, forEnd, gapEnd);
    if a.gapEnd == gapEnd {
      if a.invalid {
        MatchInvalidFirst(s, gapEnd, a.userAt, a.nameStart, a.rest);
      } else if MatchInvalid(s, gapEnd).None? {
        FindRestFirst(s, gapEnd, a.rest);
      }
    } else {
      AllAt(s, forEnd, gapEnd, Space, a.gapEnd);
      assert s[a.gapEnd] != "invalid"[0];
      assert !a.invalid;
      if MatchInvalid(s, gapEnd).None? && FindRest(s, gapEnd).None? {
        AllSplit(s, forEnd, gapEnd - 1, gapEnd, Space);
        FindAfterForFirst(s, forEnd, gapEnd - 1, a);
      }
    }
  }

  /** `(Failed|Accepted)` at `k`: the first alternative is tried first; the two cannot both match. */
  function StatusAt(s: string, k: nat): (r: Option<Status>)
    ensures r.Some? ==> LitAt(s, k, Keyword(r.value))
  {
    if LitAt(s, k, "Failed") then Some(Failed)
    else if LitAt(s, k, "Accepted") then Some(Accepted)
    else None
  }

  /** At most one keyword occurs at a position, and `StatusAt` finds it. */
  lemma StatusAtFinds(s: string, k: nat, st: Status)
    requires LitAt(s, k, Keyword(st))
    ensures StatusAt(s, k) == Some(st)
  {
    if st == Accepted {
      assert s[k + 0] == "Accepted"[0] != "Failed"[0];
      assert !LitAt(s, k, "Failed");
    }
  }

  /** The pattern from the status keyword on, with the keyword at `k`. */
  function MatchBody(s: string, k: nat): (r: Option<Body>)
    requires k <= |s|
    ensures r.Some? ==> r.value.forAt + 3 < r.value.after.gapEnd
  {
    match StatusAt(s, k)
    case None => None
    case Some(st) =>
      var kEnd := k + |Keyword(st)|;
      var pw := RunEnd(s, kEnd, Space);
      if pw == kEnd || !LitAt(s, pw, "password") then None
      else
        var fr := RunEnd(s, pw + 8, Space);
        if fr == pw + 8 || !LitAt(s, fr, "for") then None
        else
          match FindAfterFor(s, fr + 3, RunEnd(s, fr + 3, Space))
          case None => None
          case Some(a) => Some(Body(st, pw, fr, a))
  }

  lemma MatchBodySound(s: string, k: nat)
    requires k <= |s|
    ensures MatchBody(s, k).Some? ==> BodyShape(s, k, MatchBody(s, k).value)
  {
    var status := StatusAt(s, k);
    if status.Some? {
      var kEnd := k + |Keyword(status.value)|;
      RunIsLongest(s, kEnd, Space);
      var pw := RunEnd(s, kEnd, Space);
      if pw > kEnd && LitAt(s, pw, "password") {
        RunIsLongest(s, pw + 8, Space);
        var fr := RunEnd(s, pw + 8, Space);
        if fr > pw + 8 && LitAt(s, fr, "for") {
          RunIsLongest(s, fr + 3, Space);
          FindAfterForSound(s, fr + 3, RunEnd(s, fr + 3, Space));
        }
      }
    }
  }

  /** Given a body at `k`, the keyword and the two greedy `\s+` before "for" can only match as it does. */
  lemma BodyPrefixUnique(s: string, k: nat, b: Body)
    requires BodyShape(s, k, b)
    ensures StatusAt(s, k) == Some(b.status)
    ensures RunEnd(s, KeywordEnd(k, b), Space) == b.passwordAt
    ensures RunEnd(s, b.passwordAt + 8, Space) == b.forAt
  {
    StatusAtFinds(s, k, b.status);
    assert s[b.passwordAt] == "password"[0];
    RunBefore(s, KeywordEnd(k, b), b.passwordAt, Space);
    assert s[b.forAt] == "for"[0];
    RunBefore(s, b.passwordAt + 8, b.forAt, Space);
  }

  lemma MatchBodyFirst(s: string, k: nat, b: Body)
    requires k <= |s| && BodyShape(s, k, b)
    ensures MatchBody(s, k).Some? && AfterForFirst(MatchBody(s, k).value.after, b.after)
  {
    BodyPrefixUnique(s, k, b);
    var forEnd := b.forAt + 3;
    RunIsLongest(s, forEnd, Space);
    RunWithin(s, forEnd, b.after.gapEnd, Space);
    FindAfterForFirst(s, forEnd, RunEnd(s, forEnd, Space), b.after);
  }

  /** The lazy `.*?` between the timestamp and the keyword: keyword positions `k`, `k + 1`, ... are
      tried in turn, while the gap has no line feed. */
  function FindBody(s: string, k: nat): (r: Option<(nat, Body)>)
    requires k <= |s|
    ensures r.Some? ==> k <= r.value.0 <= |s|
    decreases |s| - k
  {
    match MatchBody(s, k)
    case Some(b) => Some((k, b))
    case None => if k < |s| && IsDot(s[k]) then FindBody(s, k + 1) else None
  }

  lemma {:induction false} FindBodySound(s: string, k: nat)
    requires k <= |s|
    ensures var r := FindBody(s, k);
      r.Some? ==> All(s, k, r.value.0, Dot) && BodyShape(s, r.value.0, r.value.1)
    decreases |s| - k
  {
    MatchBodySound(s, k);
    if MatchBody(s, k).None? && k < |s| && IsDot(s[k]) {
      FindBodySound(s, k + 1);
    }
  }

  lemma {:induction false} FindBodyFirst(s: string, k: nat, k': nat, b: Body)
    requires k <= |s| && All(s, k, k', Dot) && BodyShape(s, k', b)
    ensures FindBody(s, k).Some?
    ensures var (k1, b1) := FindBody(s, k).value;
      k1 < k' || (k1 == k' && AfterForFirst(b1.after, b.after))
    decreases |s| - k
  {
    if k' == k {
      MatchBodyFirst(s, k, b);
    } else if MatchBody(s, k).None? {
      FindBodyFirst(s, k + 1, k', b);
    }
  }

  /** The timestamp group at `start`; every quantifier in it has only one way to match. */
  function MatchStamp(s: string, start: nat): (r: Option<Stamp>)
    ensures r.Some? ==> StampEnd(r.value) <= |s|
  {
    if start + 3 > |s| || !All(s, start, start + 3, Word) then None
    else
      var dayStart := RunEnd(s, start + 3, Space);
      var dayEnd := RunEnd(s, dayStart, Digit);
      if dayStart == start + 3 || dayEnd == dayStart || dayEnd >= |s| then None
      else if !IsSpace(s[dayEnd]) || !IsClock(s, dayEnd + 1) then None
      else Some(Stamp(dayStart, dayEnd))
  }

  lemma MatchStampSound(s: string, start: nat)
    ensures MatchStamp(s, start).Some? ==> StampShape(s, start, MatchStamp(s, start).value)
  {
    if start + 3 <= |s| {
      RunIsLongest(s, start + 3, Space);
      RunIsLongest(s, RunEnd(s, start + 3, Space), Digit);
    }
  }

  lemma MatchStampUnique(s: string, start: nat, st: Stamp)
    requires StampShape(s, start, st)
    ensures MatchStamp(s, start) == Some(st)
  {
    RunBefore(s, start + 3, st.dayStart, Space);
    RunBefore(s, st.dayStart, st.dayEnd, Digit);
  }

  /** The whole pattern anchored at `start`. */
  function MatchAt(s: string, start: nat): (r: Option<Split>)
    ensures r.Some? ==> r.value.start == start
  {
    match MatchStamp(s, start)
    case None => None
    case Some(st) =>
      match FindBody(s, StampEnd(st))
      case None => None
      case Some((k, b)) => Some(Split(start, st, k, b))
  }

  lemma MatchAtSound(s: string, start: nat)
    ensures MatchAt(s, start).Some? ==> IsMatch(s, MatchAt(s, start).value)
  {
    MatchStampSound(s, start);
    if MatchStamp(s, start).Some? {
      FindBodySound(s, StampEnd(MatchStamp(s, start).value));
    }
  }

  lemma MatchAtFirst(s: string, m: Split)
    requires IsMatch(s, m)
    ensures MatchAt(s, m.start).Some? && SplitFirst(MatchAt(s, m.start).value, m)
  {
    MatchStampUnique(s, m.start, m.stamp);
    FindBodyFirst(s, StampEnd(m.stamp), m.k, m.body);
  }

  /** `re.search`: start positions `start`, `start + 1`, ..., `|s|` are tried in turn. */
  function Search(s: string, start: nat): (r: Option<Split>)
    requires start <= |s|
    ensures r.Some? ==> start <= r.value.start
    decreases |s| - start
  {
    match MatchAt(s, start)
    case Some(m) => Some(m)
    case None => if start < |s| then Search(s, start + 1) else None
  }

  lemma {:induction false} SearchSound(s: string, start: nat)
    requires start <= |s|
    ensures Search(s, start).Some? ==> IsMatch(s, Search(s, start).value)
    decreases |s| - start
  {
    MatchAtSound(s, start);
    if MatchAt(s, start).None? && start < |s| {
      SearchSound(s, start + 1);
    }
  }

  lemma {:induction false} SearchFirst(s: string, start: nat, m: Split)
    requires start <= |s| && IsMatch(s, m) && start <= m.start
    ensures Search(s, start).Some? && SplitFirst(Search(s, start).value, m)
    decreases |s| - start
  {
    var here := MatchAt(s, start);
    if m.start == start {
      MatchAtFirst(s, m);
    } else if here.None? {
      SearchFirst(s, start + 1, m);
      assert Search(s, start) == Search(s, start + 1);
    } else {
      assert Search(s, start) == here;
    }
  }

  /** The match `re.search(LOG_PATTERN, s)` finds: the first one in the backtracking order. */
  function FirstMatch(s: string): (r: Option<Split>)
    ensures r.Some? ==> IsMatch(s, r.value)
  {
    SearchSound(s, 0);
    Search(s, 0)
  }

  /** `FirstMatch` finds a match whenever there is one, and no match is tried before it. */
  lemma FirstMatchIsFirst(s: string, m: Split)
    requires IsMatch(s, m)
    ensures FirstMatch(s).Some? && SplitFirst(FirstMatch(s).value, m)
  {
    SearchFirst(s, 0, m);
  }

  /** The record built from the named groups of a match on the stripped line `s`. */
  function EntryOf(s: string, m: Split): LogEntry
    requires IsMatch(s, m)
  {
    var a := m.body.after;
    LogEntry(
      s[m.start..StampEnd(m.stamp)],
      s[m.k..KeywordEnd(m.k, m.body)],
      s[a.nameStart..a.rest.nameEnd],
      s[a.rest.tail.ip..a.rest.tail.ipEnd],
      s)
  }

  /** `parse_line`: strip the line, search it, and build a record from the first match. The status
      of a record is the keyword the status group matched. */
  function Parse(line: string): (r: Option<LogEntry>)
    ensures r.Some? ==> r.value.status == "Failed" || r.value.status == "Accepted"
  {
    var s := Strip(line);
    match FirstMatch(s)
    case None => None
    case Some(m) =>
      EntryOfStatus(s, m);
      Some(EntryOf(s, m))
  }

  lemma EntryOfStatus(s: string, m: Split)
    requires IsMatch(s, m)
    ensures EntryOf(s, m).status == "Failed" || EntryOf(s, m).status == "Accepted"
  {
    LitAtSlice(s, m.k, Keyword(m.body.status));
  }
}
