/** What `parse_line` returns, stated without the matcher: the record of the first match of the
    pattern in the stripped line, in the order a backtracking engine tries matches, and nothing
    when the pattern does not match at all. The remaining lemmas say what that implies for the
    fields of the record. */
module ParseFacts {
  import opened Models
  import opened Chars
  import opened Engine

  /** `m` is the match `re.search` reports: a match, and no other match is tried before it. */
  ghost predicate IsFirstMatch(s: string, m: Split) {
    IsMatch(s, m) && forall m' :: IsMatch(s, m') ==> SplitFirst(m, m')
  }

  // ---------------------------------------------------------------------------------------------
  // The first match is well defined.
  // ---------------------------------------------------------------------------------------------

  /** The address part is fixed by where the address ends: the spaces before "from" and before the
      address are greedy runs ending at a character they cannot match. */
  lemma TailUnique(s: string, e: nat, t1: Tail, t2: Tail)
    requires TailShape(s, e, t1) && TailShape(s, e, t2) && t1.ipEnd == t2.ipEnd
    ensures t1 == t2
  {
    assert s[t1.fromAt] == "from"[0] && s[t2.fromAt] == "from"[0];
    RunBefore(s, e, t1.fromAt, Space);
    RunBefore(s, e, t2.fromAt, Space);
    AllAt(s, t1.ip, t1.ipEnd, NonSpace, t1.ip);
    AllAt(s, t2.ip, t2.ipEnd, NonSpace, t2.ip);
    RunBefore(s, t1.fromAt + 4, t1.ip, Space);
    RunBefore(s, t1.fromAt + 4, t2.ip, Space);
  }

  /** Everything after "for" is fixed by where the user name starts: with the name start fixed,
      the optional "invalid user" group either matched or not, and the runs of spaces around it
      end at letters. */
  lemma AfterForUnique(s: string, forEnd: nat, a1: AfterFor, a2: AfterFor)
    requires AfterForShape(s, forEnd, a1) && AfterForShape(s, forEnd, a2)
    requires a1.nameStart == a2.nameStart
    ensures a1.gapEnd == a2.gapEnd && a1.invalid == a2.invalid && a1.userAt == a2.userAt
  {
    if a1.invalid && a2.invalid {
      assert s[a1.gapEnd] == "invalid"[0] && s[a2.gapEnd] == "invalid"[0];
      RunBefore(s, forEnd, a1.gapEnd, Space);
      RunBefore(s, forEnd, a2.gapEnd, Space);
      assert s[a1.userAt] == "user"[0] && s[a2.userAt] == "user"[0];
      RunBefore(s, a1.gapEnd + 7, a1.userAt, Space);
      RunBefore(s, a1.gapEnd + 7, a2.userAt, Space);
    } else if a1.invalid {
      assert s[a1.gapEnd] == "invalid"[0];
      AllAt(s, forEnd, a2.gapEnd, Space, a1.gapEnd);
    } else if a2.invalid {
      assert s[a2.gapEnd] == "invalid"[0];
      AllAt(s, forEnd, a1.gapEnd, Space, a2.gapEnd);
    }
  }

  /** Two matches each tried no later than the other are the same match: the backtracking order
      is a total order on the matches of a line. */
  lemma MatchOrderAntisymmetric(s: string, m1: Split, m2: Split)
    requires IsMatch(s, m1) && IsMatch(s, m2)
    requires SplitFirst(m1, m2) && SplitFirst(m2, m1)
    ensures m1 == m2
  {
    MatchStampUnique(s, m1.start, m1.stamp);
    MatchStampUnique(s, m2.start, m2.stamp);
    BodyUnique(s, m1.k, m1.body, m2.body);
  }

  /** The body at a keyword position is fixed by where the user name starts and ends and where
      the address ends. */
  lemma BodyUnique(s: string, k: nat, b1: Body, b2: Body)
    requires BodyShape(s, k, b1) && BodyShape(s, k, b2)
    requires AfterForFirst(b1.after, b2.after) && AfterForFirst(b2.after, b1.after)
    ensures b1 == b2
  {
    BodyPrefixUnique(s, k, b1);
    BodyPrefixUnique(s, k, b2);
    var a1, a2 := b1.after, b2.after;
    AfterForUnique(s, b1.forAt + 3, a1, a2);
    TailUnique(s, a1.rest.nameEnd, a1.rest.tail, a2.rest.tail);
  }

  /** A line has at most one first match. */
  lemma FirstMatchUnique(s: string, m1: Split, m2: Split)
    requires IsFirstMatch(s, m1) && IsFirstMatch(s, m2)
    ensures m1 == m2
  {
    MatchOrderAntisymmetric(s, m1, m2);
  }

  /** The matcher returns the first match when there is a match, and nothing otherwise. */
  lemma FirstMatchSpec(s: string)
    ensures FirstMatch(s).None? <==> forall m :: !IsMatch(s, m)
    ensures FirstMatch(s).Some? ==> IsFirstMatch(s, FirstMatch(s).value)
  {
    forall m | IsMatch(s, m)
      ensures FirstMatch(s).Some? && SplitFirst(FirstMatch(s).value, m)
    {
      FirstMatchIsFirst(s, m);
    }
  }

  // ---------------------------------------------------------------------------------------------
  // parse_line.
  // ---------------------------------------------------------------------------------------------

  /** `parse_line` returns None exactly when the pattern matches nowhere in the stripped line, and
      otherwise the record built from the first match. */
  lemma ParseSpec(line: string)
    ensures Parse(line).None? <==> forall m :: !IsMatch(Strip(line), m)
    ensures forall m :: IsFirstMatch(Strip(line), m) ==> Parse(line) == Some(EntryOf(Strip(line), m))
  {
    var s := Strip(line);
    FirstMatchSpec(s);
    forall m | IsFirstMatch(s, m)
      ensures Parse(line) == Some(EntryOf(s, m))
    {
      FirstMatchUnique(s, FirstMatch(s).value, m);
    }
  }

  /** Surrounding whitespace makes no difference, and the raw content is the stripped line. */
  lemma ParseStripInvariant(line: string)
    ensures Parse(Strip(line)) == Parse(line)
    ensures Parse(line).Some? ==> Parse(line).value.rawContent == Strip(line)
  {
    StripIdempotent(line);
  }

  /** A line without a colon has no `\d{2}:\d{2}:\d{2}` and is never parsed. */
  lemma NoColonNoEntry(line: string)
    requires ':' !in line
    ensures Parse(line) == None
  {
    var s := Strip(line);
    if FirstMatch(s).Some? {
    }
  }

  /** The malformed line of the parser's tests, written in two pieces. */
  const Garbage := "This is just a random " + "sentence, not a log line."

  /** The malformed line of the parser's tests is rejected. */
  lemma GarbageLine()
    ensures Parse(Garbage) == None
  {
    NoColonNoEntry(Garbage);
  }


  // ---------------------------------------------------------------------------------------------
  // The fields of a record.
  // ---------------------------------------------------------------------------------------------

  /** `\w{3}\s+\d+\s\d{2}:\d{2}:\d{2}` matches the whole of `t`. */
  ghost predicate IsTimestamp(t: string) {
    exists st :: StampShape(t, 0, st) && StampEnd(st) == |t|
  }

  /** `\S+`: at least one character and no whitespace. */
  predicate IsAddress(t: string) {
    |t| > 0 && forall i :: 0 <= i < |t| ==> !IsSpace(t[i])
  }

  /** `.*`: no line feed. */
  predicate IsName(t: string) {
    forall i :: 0 <= i < |t| ==> t[i] != '\n'
  }

  /** The fields occur in the raw content in the order timestamp, status, user name, address,
      without overlapping. */
  ghost predicate InOrder(e: LogEntry) {
    exists a: nat, b: nat, c: nat, d: nat ::
      a + |e.timestamp| <= b && b + |e.status| <= c && c + |e.username| <= d
      && LitAt(e.rawContent, a, e.timestamp) && LitAt(e.rawContent, b, e.status)
      && LitAt(e.rawContent, c, e.username) && LitAt(e.rawContent, d, e.ipAddress)
  }

  lemma SliceLit(s: string, i: nat, j: nat)
    requires i <= j <= |s|
    ensures LitAt(s, i, s[i..j])
  {
  }

  lemma TimestampOfMatch(s: string, start: nat, st: Stamp)
    requires StampShape(s, start, st)
    ensures IsTimestamp(s[start..StampEnd(st)])
  {
    var e := StampEnd(st);
    var t := s[start..e];
    var st' := Stamp(st.dayStart - start, st.dayEnd - start);
    AllShift(s, start, e, start, start + 3, Word);
    AllShift(s, start, e, start + 3, st.dayStart, Space);
    AllShift(s, start, e, st.dayStart, st.dayEnd, Digit);
    assert t[st'.dayEnd] == s[st.dayEnd];
    var c := st.dayEnd + 1;
    forall y | c - start <= y < c - start + 8
      ensures t[y] == s[start + y]
    {
    }
    assert StampShape(t, 0, st');
  }

  /** Every field of the record built from a match has the shape its group matches. */
  lemma EntryFields(s: string, m: Split)
    requires IsMatch(s, m)
    ensures var e := EntryOf(s, m);
      && e.rawContent == s
      && e.status == Keyword(m.body.status)
      && IsTimestamp(e.timestamp)
      && IsName(e.username)
      && IsAddress(e.ipAddress)
  {
    var a := m.body.after;
    var t := a.rest.tail;
    TimestampOfMatch(s, m.start, m.stamp);
    LitAtSlice(s, m.k, Keyword(m.body.status));
    NameOfMatch(s, a.nameStart, a.rest.nameEnd);
    AddressOfMatch(s, t.ip, t.ipEnd);
  }

  lemma NameOfMatch(s: string, i: nat, j: nat)
    requires All(s, i, j, Dot)
    ensures IsName(s[i..j])
  {
    AllMeans(s, i, j, Dot);
    var u := s[i..j];
    assert forall x :: 0 <= x < |u| ==> u[x] == s[i + x];
  }

  lemma AddressOfMatch(s: string, i: nat, j: nat)
    requires i < j && All(s, i, j, NonSpace)
    ensures IsAddress(s[i..j])
  {
    AllMeans(s, i, j, NonSpace);
    var u := s[i..j];
    assert forall x :: 0 <= x < |u| ==> u[x] == s[i + x];
  }

  /** The fields of the record built from a match appear in the raw line in the order of the
      pattern. */
  lemma EntryInOrder(s: string, m: Split)
    requires IsMatch(s, m)
    ensures InOrder(EntryOf(s, m))
  {
    var e := EntryOf(s, m);
    var a := m.body.after;
    var t := a.rest.tail;
    SliceLit(s, m.start, StampEnd(m.stamp));
    SliceLit(s, m.k, KeywordEnd(m.k, m.body));
    SliceLit(s, a.nameStart, a.rest.nameEnd);
    SliceLit(s, t.ip, t.ipEnd);
    assert m.start + |e.timestamp| <= m.k;
    assert m.k + |e.status| <= a.nameStart;
    assert a.nameStart + |e.username| <= t.ip;
  }

  /** Every record `parse_line` returns has a status of "Failed" or "Accepted", a timestamp of the
      required shape, a non-empty address without whitespace, a name without line feed, and its
      fields in order in its raw content. */
  lemma ParseFields(line: string)
    ensures Parse(line).Some? ==>
      var e := Parse(line).value;
      && (e.status == "Failed" || e.status == "Accepted")
      && IsTimestamp(e.timestamp)
      && IsName(e.username)
      && IsAddress(e.ipAddress)
      && InOrder(e)
  {
    var s := Strip(line);
    if FirstMatch(s).Some? {
      EntryFields(s, FirstMatch(s).value);
      EntryInOrder(s, FirstMatch(s).value);
    }
  }

  // ---------------------------------------------------------------------------------------------
  // Which of several possible readings the first match takes.
  // ---------------------------------------------------------------------------------------------

  /** The greedy `\S+` takes the whole address: it ends at whitespace or at the end of the line. */
  lemma AddressMaximal(s: string, m: Split)
    requires IsFirstMatch(s, m)
    ensures var t := m.body.after.rest.tail; t.ipEnd == |s| || IsSpace(s[t.ipEnd])
  {
    var b := m.body;
    var a := b.after;
    var t := a.rest.tail;
    if t.ipEnd < |s| && !IsSpace(s[t.ipEnd]) {
      var t' := t.(ipEnd := t.ipEnd + 1);
      AllJoin(s, t.ip, t.ipEnd, t.ipEnd + 1, NonSpace);
      var m' := m.(body := b.(after := a.(rest := a.rest.(tail := t'))));
      assert TailShape(s, a.rest.nameEnd, t');
      assert IsMatch(s, m');
      assert false;
    }
  }

  /** The lazy user name is the shortest one: at no earlier position could "\s+from\s+\S+"
      follow it. */
  lemma NameShortest(s: string, m: Split)
    requires IsFirstMatch(s, m)
    ensures var a := m.body.after;
      forall e, t :: a.nameStart <= e < a.rest.nameEnd ==> !TailShape(s, e, t)
  {
    var b := m.body;
    var a := b.after;
    forall e, t | a.nameStart <= e < a.rest.nameEnd && TailShape(s, e, t)
      ensures false
    {
      AllSplit(s, a.nameStart, e, a.rest.nameEnd, Dot);
      var m' := m.(body := b.(after := a.(rest := Rest(e, t))));
      assert IsMatch(s, m');
    }
  }

  /** A name is empty exactly when "\s+from" follows the place it starts (the double space after
      "for" of a line without a user name). */
  lemma EmptyName(s: string, m: Split)
    requires IsFirstMatch(s, m)
    ensures var a := m.body.after;
      a.rest.nameEnd == a.nameStart <==> exists t :: TailShape(s, a.nameStart, t)
  {
    var b := m.body;
    var a := b.after;
    if a.rest.nameEnd != a.nameStart {
      NameShortest(s, m);
    }
  }

  /** When "invalid user" follows "for" and the rest of the pattern matches after it, the optional
      group takes it, so it is not part of the user name. */
  lemma InvalidConsumed(s: string, m: Split, userAt: nat, v: nat, r: Rest)
    requires IsFirstMatch(s, m)
    requires var forEnd := m.body.forAt + 3;
      InvalidShape(s, RunEnd(s, forEnd, Space), userAt, v) && RestShape(s, v, r)
    ensures m.body.after.invalid && v <= m.body.after.nameStart
  {
    var b := m.body;
    var a := b.after;
    var forEnd := b.forAt + 3;
    var g := RunEnd(s, forEnd, Space);
    RunIsLongest(s, forEnd, Space);
    RunWithin(s, forEnd, a.gapEnd, Space);
    var a' := AfterFor(g, true, userAt, v, r);
    var m' := m.(body := b.(after := a'));
    assert AfterForShape(s, forEnd, a');
    assert IsMatch(s, m');
  }
}
