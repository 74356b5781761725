/** The password lines sshd writes, built from their parts, and the record `parse_line` returns for
    each of them. The lines of the parser's tests are instances. */
module SshdLines {
  import opened Models
  import opened Chars
  import opened Engine
  import opened ParseFacts

  // ---------------------------------------------------------------------------------------------
  // A line built from its parts.
  // ---------------------------------------------------------------------------------------------

  /** The text from the status keyword's end to the user name. */
  function Phrase(invalid: bool): string {
    if invalid then " password for invalid user " else " password for "
  }

  /** A password line: the timestamp, the host and process, the status keyword, the phrase, the
      user name, "from", the address, and whatever follows the address. */
  function SshdLine(ts: string, host: string, st: Status, invalid: bool, name: string, ip: string,
                    rest: string): string
  {
    ts + (host + (Keyword(st) + (Phrase(invalid) + (name + (" from " + (ip + rest))))))
  }

  /** The parts of a line that `LOG_PATTERN` reads the way a person would. The conditions on the
      user name keep the lazy group from stopping early (no "f", so no "from", inside it) and the
      greedy spaces around it from taking part of it; an empty name must not be followed by
      another "from". */
  ghost predicate WellFormed(ts: string, host: string, invalid: bool, name: string, ip: string,
                             rest: string)
  {
    IsTimestamp(ts)
    && '\n' !in host && 'F' !in host && 'A' !in host
    && '\n' !in name && 'f' !in name
    && (name == [] || (!IsSpace(name[0]) && !IsSpace(name[|name| - 1])))
    && (invalid ==> name != [])
    && (!invalid ==> !LitAt(name, 0, "invalid"))
    && ip != [] && (forall c :: c in ip ==> !IsSpace(c))
    && (rest == [] || (IsSpace(rest[0]) && !IsSpace(rest[|rest| - 1])))
    && (name == [] ==> 'f' !in ip && 'f' !in rest)
  }

  /** Where the status keyword of a line starts; the later parts are counted from it. */
  function KeywordAt(ts: string, host: string): nat {
    |ts| + |host|
  }

  /** The character at `x`, under a name of its own: the facts below about where the parts of a
      line sit apply to it, and not to every indexing of the line. */
  function CharAt(s: string, x: nat): char
    requires x < |s|
  {
    s[x]
  }

  /** `w` occurs in `s` at `i`. */
  predicate Placed(s: string, i: nat, w: string) {
    i + |w| <= |s| && forall x :: i <= x < i + |w| ==> CharAt(s, x) == w[x - i]
  }

  lemma PlacedLit(s: string, i: nat, w: string)
    requires Placed(s, i, w)
    ensures LitAt(s, i, w)
  {
    forall x | 0 <= x < |w|
      ensures s[i + x] == w[x]
    {
      assert CharAt(s, i + x) == w[(i + x) - i];
    }
  }

  /** `s` consists of eight strings, one after the other. */
  predicate Parts(s: string, p0: string, p1: string, p2: string, p3: string, p4: string, p5: string,
                  p6: string, p7: string)
  {
    var i1 := |p0|; var i2 := i1 + |p1|; var i3 := i2 + |p2|; var i4 := i3 + |p3|;
    var i5 := i4 + |p4|; var i6 := i5 + |p5|; var i7 := i6 + |p6|;
    |s| == i7 + |p7|
    && Placed(s, 0, p0) && Placed(s, i1, p1) && Placed(s, i2, p2) && Placed(s, i3, p3)
    && Placed(s, i4, p4) && Placed(s, i5, p5) && Placed(s, i6, p6) && Placed(s, i7, p7)
  }

  /** The keyword, the phrase and " from " where they are placed in a line, under names of their
      own: a lemma that needs one of them placed asks for it by this name, and does not look into
      the literal's characters to check it. */
  predicate KeywordPlaced(s: string, k: nat, st: Status) {
    Placed(s, k, Keyword(st))
  }

  predicate PhrasePlaced(s: string, e: nat, invalid: bool) {
    Placed(s, e, Phrase(invalid))
  }

  predicate FromPlaced(s: string, i: nat) {
    Placed(s, i, " from ")
  }

  /** `s` consists of the parts of a password line, each where the lengths of those before it
      put it: the timestamp, the host, the keyword `kw`, the phrase `ph`, the name, " from ", the
      address and the rest. */
  predicate Laid(s: string, ts: string, host: string, kw: string, ph: string, name: string,
                 ip: string, rest: string)
  {
    var k := KeywordAt(ts, host);
    var e := k + |kw|;
    var n := e + |ph|;
    var a := n + |name| + 6;
    Placed(s, 0, ts) && Placed(s, |ts|, host) && Placed(s, k, kw) && Placed(s, e, ph)
    && Placed(s, n, name) && Placed(s, n + |name|, " from ") && Placed(s, a, ip) && Placed(s, a + |ip|, rest)
    && |s| == a + |ip| + |rest|
  }

  lemma LaidOut(ts: string, host: string, kw: string, ph: string, name: string, ip: string,
                rest: string)
    ensures Laid(ts + (host + (kw + (ph + (name + (" from " + (ip + rest)))))), ts, host, kw, ph, name,
                 ip, rest)
  {
    Layout(ts, host, kw, ph, name, " from ", ip, rest);
    assert |" from "| == 6;
  }

  /** Each of eight strings sits where the lengths of those before it put it. */
  lemma Layout(p0: string, p1: string, p2: string, p3: string, p4: string, p5: string, p6: string,
               p7: string)
    ensures Parts(p0 + (p1 + (p2 + (p3 + (p4 + (p5 + (p6 + p7)))))), p0, p1, p2, p3, p4, p5, p6, p7)
  {
    var r6 := p6 + p7;
    var r5 := p5 + r6;
    var r4 := p4 + r5;
    var r3 := p3 + r4;
    var r2 := p2 + r3;
    var r1 := p1 + r2;
    PlacedFront(p0, r1);
    PlacedFront(p1, r2);
    PlacedShift(p0, r1, 0, p1);
    PlacedFront(p2, r3);
    PlacedShift(p1, r2, 0, p2);
    PlacedShift(p0, r1, |p1|, p2);
    PlacedFront(p3, r4);
    Shift3(p2, p1, p0, r3, 0, p3);
    PlacedFront(p4, r5);
    PlacedShift(p3, r4, 0, p4);
    Shift3(p2, p1, p0, r3, |p3|, p4);
    PlacedFront(p5, r6);
    PlacedShift(p4, r5, 0, p5);
    PlacedShift(p3, r4, |p4|, p5);
    Shift3(p2, p1, p0, r3, |p3| + |p4|, p5);
    PlacedFront(p6, p7);
    PlacedShift(p5, r6, 0, p6);
    PlacedShift(p4, r5, |p5|, p6);
    PlacedShift(p3, r4, |p4| + |p5|, p6);
    Shift3(p2, p1, p0, r3, |p3| + |p4| + |p5|, p6);
    PlacedEnd(p6, p7);
    PlacedShift(p5, r6, |p6|, p7);
    PlacedShift(p4, r5, |p5| + |p6|, p7);
    PlacedShift(p3, r4, |p4| + |p5| + |p6|, p7);
    Shift3(p2, p1, p0, r3, |p3| + |p4| + |p5| + |p6|, p7);
  }

  lemma PlacedFront(w: string, b: string)
    ensures Placed(w + b, 0, w)
  {
    forall x | 0 <= x < |w|
      ensures CharAt(w + b, x) == w[x - 0]
    {
    }
  }

  lemma PlacedShift(a: string, s: string, i: nat, w: string)
    requires Placed(s, i, w)
    ensures Placed(a + s, |a| + i, w)
  {
    forall x | |a| + i <= x < |a| + i + |w|
      ensures CharAt(a + s, x) == w[x - (|a| + i)]
    {
      assert CharAt(s, x - |a|) == w[(x - |a|) - i];
    }
  }

  lemma Shift3(c: string, b: string, a: string, s: string, i: nat, w: string)
    requires Placed(s, i, w)
    ensures Placed(a + (b + (c + s)), |a| + |b| + |c| + i, w)
  {
    PlacedShift(c, s, i, w);
    PlacedShift(b, c + s, |c| + i, w);
    PlacedShift(a, b + (c + s), |b| + |c| + i, w);
  }

  lemma PlacedEnd(a: string, w: string)
    ensures Placed(a + w, |a|, w)
  {
    forall x | |a| <= x < |a| + |w|
      ensures CharAt(a + w, x) == w[x - |a|]
    {
    }
  }


  // ---------------------------------------------------------------------------------------------
  // The line matches at the split points of its parts.
  // ---------------------------------------------------------------------------------------------

  /** The match a reader sees in a password line: the timestamp at 0, the keyword right after the
      host, single spaces between the words, the name after the phrase, and the address after
      "from". */
  function LineSplit(stamp: Stamp, ts: string, host: string, st: Status, invalid: bool, name: string,
                     ip: string): Split
  {
    Split(0, stamp, KeywordAt(ts, host), LineBody(KeywordAt(ts, host), st, invalid, name, ip))
  }

  lemma PlacedInner(s: string, i: nat, w: string, j: nat, u: string)
    requires Placed(s, i, w) && LitAt(w, j, u)
    ensures LitAt(s, i + j, u)
  {
    forall x | 0 <= x < |u|
      ensures s[i + j + x] == u[x]
    {
      assert CharAt(s, i + j + x) == w[(i + j + x) - i];
    }
  }

  lemma {:induction false} AllPlaced(s: string, p: nat, w: string, i: nat, j: nat, cls: Class)
    requires Placed(s, p, w) && All(w, i, j, cls)
    ensures All(s, p + i, p + j, cls)
    decreases j - i
  {
    if i < j {
      assert CharAt(s, p + i) == w[(p + i) - p];
      AllPlaced(s, p, w, i + 1, j, cls);
    }
  }

  lemma AllOfMembers(w: string, cls: Class)
    requires forall c :: c in w ==> In(c, cls)
    ensures All(w, 0, |w|, cls)
  {
    AllMeans(w, 0, |w|, cls);
  }

  /** The words and spaces of the phrase after the keyword. */
  lemma PhraseWords(invalid: bool)
    ensures var w := Phrase(invalid);
      w[0] == ' ' && LitAt(w, 1, "password") && w[9] == ' ' && LitAt(w, 10, "for") && w[13] == ' '
    ensures invalid ==> var w := Phrase(invalid);
      LitAt(w, 14, "invalid") && w[21] == ' ' && LitAt(w, 22, "user") && w[26] == ' '
  {
  }

  lemma StampPart(s: string, ts: string, stamp: Stamp)
    requires Placed(s, 0, ts) && StampShape(ts, 0, stamp) && StampEnd(stamp) == |ts|
    ensures StampShape(s, 0, stamp)
  {
    AllPlaced(s, 0, ts, 0, 3, Word);
    AllPlaced(s, 0, ts, 3, stamp.dayStart, Space);
    AllPlaced(s, 0, ts, stamp.dayStart, stamp.dayEnd, Digit);
    var c := stamp.dayEnd + 1;
    assert CharAt(s, stamp.dayEnd) == ts[stamp.dayEnd - 0];
    assert CharAt(s, c) == ts[c - 0] && CharAt(s, c + 1) == ts[c + 1 - 0] && CharAt(s, c + 2) == ts[c + 2 - 0];
    assert CharAt(s, c + 3) == ts[c + 3 - 0] && CharAt(s, c + 4) == ts[c + 4 - 0] && CharAt(s, c + 5) == ts[c + 5 - 0];
    assert CharAt(s, c + 6) == ts[c + 6 - 0] && CharAt(s, c + 7) == ts[c + 7 - 0];
  }

  /** The phrase after the keyword at `e`: "password" and "for", single spaces, and the group
      when it is there. */
  lemma PhrasePart(s: string, e: nat, invalid: bool)
    requires PhrasePlaced(s, e, invalid)
    ensures IsSpace(s[e]) && LitAt(s, e + 1, "password") && IsSpace(s[e + 9]) && LitAt(s, e + 10, "for")
    ensures IsSpace(s[e + 13])
    ensures invalid ==> LitAt(s, e + 14, "invalid") && IsSpace(s[e + 21]) && LitAt(s, e + 22, "user")
                        && IsSpace(s[e + 26])
    ensures invalid ==> !IsSpace(s[e + 14]) && !IsSpace(s[e + 22])
  {
    var w := Phrase(invalid);
    PhraseWords(invalid);
    assert CharAt(s, e) == w[e - e] && CharAt(s, e + 9) == w[e + 9 - e] && CharAt(s, e + 13) == w[e + 13 - e];
    PlacedInner(s, e, w, 1, "password");
    PlacedInner(s, e, w, 10, "for");
    if invalid {
      assert CharAt(s, e + 21) == w[e + 21 - e] && CharAt(s, e + 26) == w[e + 26 - e];
      PlacedInner(s, e, w, 14, "invalid");
      PlacedInner(s, e, w, 22, "user");
      assert s[e + 14 + 0] == "invalid"[0] && s[e + 22 + 0] == "user"[0];
    }
  }

  /** The user name at `n`, then " from " and the address. */
  lemma RestPart(s: string, n: nat, name: string, ip: string)
    requires Placed(s, n, name) && FromPlaced(s, n + |name|) && Placed(s, n + |name| + 6, ip)
    requires '\n' !in name && ip != [] && forall c :: c in ip ==> !IsSpace(c)
    ensures RestShape(s, n, LineRest(n, name, ip))
  {
    var ne := n + |name|;
    AllOfMembers(name, Dot);
    AllPlaced(s, n, name, 0, |name|, Dot);
    assert CharAt(s, ne) == " from "[ne - ne] && CharAt(s, ne + 5) == " from "[ne + 5 - ne];
    assert LitAt(" from ", 1, "from");
    PlacedInner(s, ne, " from ", 1, "from");
    AllOfMembers(ip, NonSpace);
    AllPlaced(s, ne + 6, ip, 0, |ip|, NonSpace);
  }

  /** The name at `n`, then " from " and the address. */
  function LineRest(n: nat, name: string, ip: string): Rest {
    var ne := n + |name|;
    Rest(ne, Tail(ne + 1, ne + 6, ne + 6 + |ip|))
  }

  /** The text after "for", which ends at `e + 13`: one space, the group when it is there, the
      name and the rest. */
  function LineAfter(e: nat, invalid: bool, name: string, ip: string): AfterFor {
    var n := e + |Phrase(invalid)|;
    AfterFor(e + 14, invalid, if invalid then e + 22 else e + 14, n, LineRest(n, name, ip))
  }

  /** The line's body: the keyword at `k`, the phrase, the name, "from" and the address. */
  function LineBody(k: nat, st: Status, invalid: bool, name: string, ip: string): Body {
    var e := k + |Keyword(st)|;
    Body(st, e + 1, e + 10, LineAfter(e, invalid, name, ip))
  }

  lemma BodyAt(s: string, k: nat, st: Status, invalid: bool, name: string, ip: string)
    requires KeywordPlaced(s, k, st)
    requires var e := k + |Keyword(st)|; var n := e + |Phrase(invalid)|;
      PhrasePlaced(s, e, invalid) && Placed(s, n, name) && FromPlaced(s, n + |name|)
      && Placed(s, n + |name| + 6, ip)
    requires '\n' !in name && ip != [] && forall c :: c in ip ==> !IsSpace(c)
    ensures BodyShape(s, k, LineBody(k, st, invalid, name, ip))
  {
    var e := k + |Keyword(st)|;
    var b := LineBody(k, st, invalid, name, ip);
    PlacedLit(s, k, Keyword(st));
    PhrasePart(s, e, invalid);
    AfterAt(s, e, invalid, name, ip);
    assert KeywordEnd(k, b) == e;
    assert All(s, e, e + 1, Space) && All(s, e + 9, e + 10, Space);
  }

  /** The text after "for" matches its part of the pattern as `LineAfter` splits it. */
  lemma AfterAt(s: string, e: nat, invalid: bool, name: string, ip: string)
    requires var n := e + |Phrase(invalid)|;
      PhrasePlaced(s, e, invalid) && Placed(s, n, name) && FromPlaced(s, n + |name|)
      && Placed(s, n + |name| + 6, ip)
    requires '\n' !in name && ip != [] && forall c :: c in ip ==> !IsSpace(c)
    ensures AfterForShape(s, e + 13, LineAfter(e, invalid, name, ip))
  {
    var n := e + |Phrase(invalid)|;
    PhrasePart(s, e, invalid);
    RestPart(s, n, name, ip);
    assert All(s, e + 13, e + 14, Space);
    if invalid {
      assert All(s, e + 21, e + 22, Space) && All(s, e + 26, e + 27, Space);
      assert InvalidShape(s, e + 14, e + 22, n);
    }
  }

  lemma LineMatches(s: string, ts: string, host: string, st: Status, invalid: bool, name: string,
                    ip: string, stamp: Stamp)
    requires var k := KeywordAt(ts, host); var e := k + |Keyword(st)|; var n := e + |Phrase(invalid)|;
      Placed(s, 0, ts) && Placed(s, |ts|, host) && KeywordPlaced(s, k, st)
      && PhrasePlaced(s, e, invalid) && Placed(s, n, name) && FromPlaced(s, n + |name|)
      && Placed(s, n + |name| + 6, ip)
    requires '\n' !in host && '\n' !in name && ip != [] && forall c :: c in ip ==> !IsSpace(c)
    requires StampShape(ts, 0, stamp) && StampEnd(stamp) == |ts|
    ensures IsMatch(s, LineSplit(stamp, ts, host, st, invalid, name, ip))
  {
    HeadAt(s, ts, host, stamp);
    BodyAt(s, KeywordAt(ts, host), st, invalid, name, ip);
  }

  /** The timestamp and the host text before the keyword match their parts of the pattern. */
  lemma HeadAt(s: string, ts: string, host: string, stamp: Stamp)
    requires Placed(s, 0, ts) && Placed(s, |ts|, host) && '\n' !in host
    requires StampShape(ts, 0, stamp) && StampEnd(stamp) == |ts|
    ensures StampShape(s, 0, stamp) && All(s, StampEnd(stamp), KeywordAt(ts, host), Dot)
  {
    StampPart(s, ts, stamp);
    AllOfMembers(host, Dot);
    AllPlaced(s, |ts|, host, 0, |host|, Dot);
  }

  // ---------------------------------------------------------------------------------------------
  // No match is tried before it.
  // ---------------------------------------------------------------------------------------------

  /** A match at the start of `s` is the first one when no status keyword starts between the
      timestamp and its keyword, and no reading of the text after "for" is tried before its own. */
  lemma FirstWhen(s: string, m: Split)
    requires IsMatch(s, m) && m.start == 0
    requires forall x :: StampEnd(m.stamp) <= x < m.k ==> StatusAt(s, x).None?
    requires forall a :: AfterForShape(s, m.body.forAt + 3, a) ==> AfterForFirst(m.body.after, a)
    ensures FirstMatch(s) == Some(m)
  {
    FirstMatchIsFirst(s, m);
    var f := FirstMatch(s).value;
    SameKeyword(s, m, f);
    SameFor(s, m.k, m.body, f.body);
    assert AfterForFirst(m.body.after, f.body.after);
    MatchOrderAntisymmetric(s, f, m);
  }

  /** A match tried no later than `m` has its keyword where `m` has it. */
  lemma SameKeyword(s: string, m: Split, f: Split)
    requires IsMatch(s, m) && IsMatch(s, f) && m.start == 0 && SplitFirst(f, m)
    requires forall x :: StampEnd(m.stamp) <= x < m.k ==> StatusAt(s, x).None?
    ensures f.start == 0 && f.k == m.k
  {
    MatchStampUnique(s, 0, m.stamp);
    MatchStampUnique(s, 0, f.stamp);
    StatusAtFinds(s, f.k, f.body.status);
  }

  /** Two bodies at the same keyword have "for" at the same place. */
  lemma SameFor(s: string, k: nat, b1: Body, b2: Body)
    requires BodyShape(s, k, b1) && BodyShape(s, k, b2)
    ensures b1.forAt == b2.forAt && AfterForShape(s, b1.forAt + 3, b2.after)
  {
    BodyPrefixUnique(s, k, b1);
    BodyPrefixUnique(s, k, b2);
  }

  /** A run of spaces from `i` that must end before a character that is not a space. */
  lemma OneSpaceGap(s: string, i: nat, j: nat)
    requires All(s, i, j, Space) && i < j && i + 1 < |s| && !IsSpace(s[i + 1])
    ensures j == i + 1
  {
  }

  /** The name and address a reader sees are tried first among the readings from `n`: no "f"
      inside the name, the name does not end in a space, and the address is followed by a space or
      the end of the line. */
  lemma RestFirstByChars(s: string, n: nat, r: Rest, r': Rest)
    requires RestShape(s, n, r) && RestShape(s, n, r')
    requires forall x :: n <= x < r.nameEnd ==> s[x] != 'f'
    requires r.nameEnd == n || !IsSpace(s[r.nameEnd - 1])
    requires r.tail.ipEnd == |s| || IsSpace(s[r.tail.ipEnd])
    ensures RestFirst(r, r')
  {
    AllMeans(s, n, r'.nameEnd, Dot);
    assert s[r'.tail.fromAt + 0] == "from"[0];
    if r'.nameEnd < r.nameEnd {
      if r'.tail.fromAt < r.nameEnd {
        assert false;
      } else {
        AllAt(s, r'.nameEnd, r'.tail.fromAt, Space, r.nameEnd - 1);
        assert false;
      }
    } else if r'.nameEnd == r.nameEnd {
      MatchTailFirst(s, r.nameEnd, r.tail);
      MatchTailFirst(s, r.nameEnd, r'.tail);
      if r'.tail.ipEnd > r.tail.ipEnd {
        AllAt(s, r'.tail.ip, r'.tail.ipEnd, NonSpace, r.tail.ipEnd);
        assert false;
      }
    }
  }

  /** After "for" and one space, a name that does not start with a space or with "invalid": the
      reading with the name right after that space is tried first. */
  lemma PlainFirst(s: string, forEnd: nat, r: Rest)
    requires forEnd + 1 < |s| && !IsSpace(s[forEnd + 1]) && !LitAt(s, forEnd + 1, "invalid")
    requires RestShape(s, forEnd + 1, r)
    requires forall x :: forEnd + 1 <= x < r.nameEnd ==> s[x] != 'f'
    requires r.nameEnd == forEnd + 1 || !IsSpace(s[r.nameEnd - 1])
    requires r.tail.ipEnd == |s| || IsSpace(s[r.tail.ipEnd])
    ensures forall a :: AfterForShape(s, forEnd, a) ==>
      AfterForFirst(AfterFor(forEnd + 1, false, forEnd + 1, forEnd + 1, r), a)
  {
    forall a | AfterForShape(s, forEnd, a)
      ensures AfterForFirst(AfterFor(forEnd + 1, false, forEnd + 1, forEnd + 1, r), a)
    {
      OneSpaceGap(s, forEnd, a.gapEnd);
      RestFirstByChars(s, forEnd + 1, r, a.rest);
    }
  }

  /** "from" starts with an "f". */
  lemma FromHead(s: string, e: nat, t: Tail)
    requires TailShape(s, e, t)
    ensures s[t.fromAt] == 'f'
  {
    assert s[t.fromAt + 0] == "from"[0];
  }

  /** After "for", two spaces and "from", with no other "f" up to the end: the empty name between
      the two spaces is tried first. */
  lemma EmptyFirst(s: string, forEnd: nat, r: Rest)
    requires forEnd + 2 < |s| && s[forEnd + 1] == ' ' && s[forEnd + 2] == 'f'
    requires forall x :: forEnd + 2 < x < |s| ==> s[x] != 'f'
    requires RestShape(s, forEnd + 1, r) && r.nameEnd == forEnd + 1
    requires r.tail.ipEnd == |s| || IsSpace(s[r.tail.ipEnd])
    ensures forall a :: AfterForShape(s, forEnd, a) ==>
      AfterForFirst(AfterFor(forEnd + 1, false, forEnd + 1, forEnd + 1, r), a)
  {
    forall a | AfterForShape(s, forEnd, a)
      ensures AfterForFirst(AfterFor(forEnd + 1, false, forEnd + 1, forEnd + 1, r), a)
    {
      if a.gapEnd > forEnd + 2 {
        AllAt(s, forEnd, a.gapEnd, Space, forEnd + 2);
      }
      assert a.invalid ==> s[a.gapEnd + 0] == "invalid"[0];
      FromHead(s, a.rest.nameEnd, a.rest.tail);
      RestFirstByChars(s, forEnd + 1, r, a.rest);
    }
  }

  /** After "for", one space, "invalid", one space, "user", one space and a name that does not
      start with a space: the reading that takes the group is tried first. */
  lemma InvalidFirst(s: string, forEnd: nat, r: Rest)
    requires forEnd + 14 < |s| && !IsSpace(s[forEnd + 1]) && !IsSpace(s[forEnd + 9])
    requires !IsSpace(s[forEnd + 14])
    requires RestShape(s, forEnd + 14, r)
    requires forall x :: forEnd + 14 <= x < r.nameEnd ==> s[x] != 'f'
    requires r.nameEnd == forEnd + 14 || !IsSpace(s[r.nameEnd - 1])
    requires r.tail.ipEnd == |s| || IsSpace(s[r.tail.ipEnd])
    ensures forall a :: AfterForShape(s, forEnd, a) ==>
      AfterForFirst(AfterFor(forEnd + 1, true, forEnd + 9, forEnd + 14, r), a)
  {
    forall a | AfterForShape(s, forEnd, a)
      ensures AfterForFirst(AfterFor(forEnd + 1, true, forEnd + 9, forEnd + 14, r), a)
    {
      OneSpaceGap(s, forEnd, a.gapEnd);
      if a.invalid {
        OneSpaceGap(s, forEnd + 8, a.userAt);
        OneSpaceGap(s, forEnd + 13, a.nameStart);
        RestFirstByChars(s, forEnd + 14, r, a.rest);
      }
    }
  }

  // ---------------------------------------------------------------------------------------------
  // The characters of a line.
  // ---------------------------------------------------------------------------------------------

  lemma PlacedAt(s: string, i: nat, w: string, x: nat)
    requires Placed(s, i, w) && i <= x < i + |w|
    ensures s[x] == w[x - i]
  {
    assert CharAt(s, x) == w[x - i];
  }

  lemma PlacedAvoids(s: string, i: nat, w: string, c: char)
    requires Placed(s, i, w) && c !in w
    ensures forall x :: i <= x < i + |w| ==> s[x] != c
  {
    forall x | i <= x < i + |w|
      ensures s[x] != c
    {
      PlacedAt(s, i, w, x);
    }
  }

  lemma PlacedSlice(s: string, i: nat, w: string)
    requires Placed(s, i, w)
    ensures s[i..i + |w|] == w
  {
    PlacedLit(s, i, w);
    LitAtSlice(s, i, w);
  }

  /** A name that does not start with "invalid", followed by a space, does not put "invalid" at its
      start in the line. */
  lemma NotInvalid(s: string, n: nat, name: string)
    requires Placed(s, n, name) && FromPlaced(s, n + |name|) && !LitAt(name, 0, "invalid")
    ensures !LitAt(s, n, "invalid")
  {
    if |name| < 7 {
      PlacedAt(s, n + |name|, " from ", n + |name|);
      assert "invalid"[|name|] != ' ';
    } else {
      forall x | 0 <= x < 7
        ensures s[n + x] == name[x]
      {
        PlacedAt(s, n, name, n + x);
      }
    }
  }

  /** No status keyword starts inside a host part without "F" and "A". */
  lemma HostNoKeyword(s: string, p: nat, host: string)
    requires Placed(s, p, host) && 'F' !in host && 'A' !in host
    ensures forall x :: p <= x < p + |host| ==> StatusAt(s, x).None?
  {
    forall x | p <= x < p + |host|
      ensures StatusAt(s, x).None?
    {
      PlacedAt(s, p, host, x);
      assert host[x - p] in host;
      assert s[x + 0] != "Failed"[0] && s[x + 0] != "Accepted"[0];
    }
  }

  /** The name at `n`, " from ", the address and the rest of the line: the reading of them that
      a person sees, and what the search needs to know to try it first. */
  lemma NameRest(s: string, n: nat, name: string, ip: string, rest: string)
    requires var a := n + |name| + 6;
      Placed(s, n, name) && FromPlaced(s, n + |name|) && Placed(s, a, ip)
      && Placed(s, a + |ip|, rest) && |s| == a + |ip| + |rest|
    requires '\n' !in name && 'f' !in name
    requires name == [] || (!IsSpace(name[0]) && !IsSpace(name[|name| - 1]))
    requires ip != [] && (forall c :: c in ip ==> !IsSpace(c))
    requires rest == [] || IsSpace(rest[0])
    ensures var r := LineRest(n, name, ip);
      RestShape(s, n, r) && (forall x :: n <= x < r.nameEnd ==> s[x] != 'f')
      && (r.nameEnd == n || !IsSpace(s[r.nameEnd - 1]))
      && (r.tail.ipEnd == |s| || IsSpace(s[r.tail.ipEnd]))
    ensures name != [] ==> !IsSpace(s[n])
  {
    var ne := n + |name|;
    RestPart(s, n, name, ip);
    PlacedAvoids(s, n, name, 'f');
    if name != [] {
      PlacedAt(s, n, name, n);
      PlacedAt(s, n, name, ne - 1);
    }
    if rest != [] {
      PlacedAt(s, ne + 6 + |ip|, rest, ne + 6 + |ip|);
    }
  }

  /** With the group, the reading that takes it is tried first. */
  lemma AfterInvalid(s: string, e: nat, invalid: bool, name: string, ip: string, rest: string)
    requires var n := e + |Phrase(invalid)|; var a := n + |name| + 6;
      PhrasePlaced(s, e, invalid) && Placed(s, n, name) && FromPlaced(s, n + |name|)
      && Placed(s, a, ip) && Placed(s, a + |ip|, rest) && |s| == a + |ip| + |rest|
    requires '\n' !in name && 'f' !in name && name != []
    requires !IsSpace(name[0]) && !IsSpace(name[|name| - 1])
    requires ip != [] && (forall c :: c in ip ==> !IsSpace(c))
    requires rest == [] || IsSpace(rest[0])
    requires invalid
    ensures forall a :: AfterForShape(s, e + 13, a) ==> AfterForFirst(LineAfter(e, invalid, name, ip), a)
  {
    var n := e + |Phrase(invalid)|;
    PhrasePart(s, e, invalid);
    NameRest(s, n, name, ip, rest);
    assert n == e + 13 + 14;
    InvalidFirst(s, e + 13, LineRest(n, name, ip));
  }

  /** Without the group and with a name, the name right after the space is tried first. */
  lemma AfterPlain(s: string, e: nat, invalid: bool, name: string, ip: string, rest: string)
    requires var n := e + |Phrase(invalid)|; var a := n + |name| + 6;
      Placed(s, n, name) && FromPlaced(s, n + |name|)
      && Placed(s, a, ip) && Placed(s, a + |ip|, rest) && |s| == a + |ip| + |rest|
    requires '\n' !in name && 'f' !in name && name != [] && !LitAt(name, 0, "invalid")
    requires !IsSpace(name[0]) && !IsSpace(name[|name| - 1])
    requires ip != [] && (forall c :: c in ip ==> !IsSpace(c))
    requires rest == [] || IsSpace(rest[0])
    requires !invalid
    ensures forall a :: AfterForShape(s, e + 13, a) ==> AfterForFirst(LineAfter(e, invalid, name, ip), a)
  {
    var n := e + |Phrase(invalid)|;
    NameRest(s, n, name, ip, rest);
    NotInvalid(s, n, name);
    assert n == e + 13 + 1;
    PlainFirst(s, e + 13, LineRest(n, name, ip));
  }

  /** With an empty name, the empty name between the two spaces is tried first. */
  lemma AfterEmpty(s: string, e: nat, invalid: bool, name: string, ip: string, rest: string)
    requires var n := e + |Phrase(invalid)|; var a := n + |name| + 6;
      Placed(s, n, name) && FromPlaced(s, n + |name|)
      && Placed(s, a, ip) && Placed(s, a + |ip|, rest) && |s| == a + |ip| + |rest|
    requires name == [] && ip != [] && (forall c :: c in ip ==> !IsSpace(c))
    requires rest == [] || IsSpace(rest[0])
    requires 'f' !in ip && 'f' !in rest
    requires !invalid
    ensures forall a :: AfterForShape(s, e + 13, a) ==> AfterForFirst(LineAfter(e, invalid, name, ip), a)
  {
    var n := e + |Phrase(invalid)|;
    assert n == e + 14;
    NameRest(s, n, name, ip, rest);
    PlacedAt(s, n, " from ", n);
    PlacedAt(s, n, " from ", n + 1);
    forall x | n + 1 < x < n + 6
      ensures s[x] != 'f'
    {
      PlacedAt(s, n, " from ", x);
    }
    PlacedAvoids(s, n + 6, ip, 'f');
    PlacedAvoids(s, n + 6 + |ip|, rest, 'f');
    EmptyFirst(s, e + 13, LineRest(n, name, ip));
  }

  // ---------------------------------------------------------------------------------------------
  // What `parse_line` returns for a password line.
  // ---------------------------------------------------------------------------------------------

  /** The match a reader sees is the first one once nothing in the host starts a keyword and no
      reading after "for" is tried before its own. */
  lemma LineFirst(s: string, ts: string, host: string, st: Status, invalid: bool, name: string,
                  ip: string, stamp: Stamp)
    requires var k := KeywordAt(ts, host); var e := k + |Keyword(st)|; var n := e + |Phrase(invalid)|;
      Placed(s, 0, ts) && Placed(s, |ts|, host) && KeywordPlaced(s, k, st)
      && PhrasePlaced(s, e, invalid) && Placed(s, n, name) && FromPlaced(s, n + |name|)
      && Placed(s, n + |name| + 6, ip)
    requires '\n' !in host && '\n' !in name && ip != [] && forall c :: c in ip ==> !IsSpace(c)
    requires StampShape(ts, 0, stamp) && StampEnd(stamp) == |ts|
    requires forall x :: |ts| <= x < |ts| + |host| ==> StatusAt(s, x).None?
    requires var e := KeywordAt(ts, host) + |Keyword(st)|;
      forall a :: AfterForShape(s, e + 13, a) ==> AfterForFirst(LineAfter(e, invalid, name, ip), a)
    ensures FirstMatch(s) == Some(LineSplit(stamp, ts, host, st, invalid, name, ip))
  {
    LineMatches(s, ts, host, st, invalid, name, ip, stamp);
    FirstWhen(s, LineSplit(stamp, ts, host, st, invalid, name, ip));
  }

  /** The match a reader sees is the one the search finds. */
  lemma LineIsFirst(s: string, ts: string, host: string, st: Status, invalid: bool, name: string,
                    ip: string, rest: string, stamp: Stamp)
    requires Laid(s, ts, host, Keyword(st), Phrase(invalid), name, ip, rest) && WellFormed(ts, host, invalid, name, ip, rest)
    requires StampShape(ts, 0, stamp) && StampEnd(stamp) == |ts|
    ensures FirstMatch(s) == Some(LineSplit(stamp, ts, host, st, invalid, name, ip))
  {
    HostNoKeyword(s, |ts|, host);
    AfterLine(s, ts, host, st, invalid, name, ip, rest);
    LineFirst(s, ts, host, st, invalid, name, ip, stamp);
  }

  /** The reading of the text after "for" that a person sees is tried first, with or without the
      group and with or without a name. */
  lemma AfterLine(s: string, ts: string, host: string, st: Status, invalid: bool, name: string,
                  ip: string, rest: string)
    requires Laid(s, ts, host, Keyword(st), Phrase(invalid), name, ip, rest) && WellFormed(ts, host, invalid, name, ip, rest)
    ensures var e := KeywordAt(ts, host) + |Keyword(st)|;
      forall a :: AfterForShape(s, e + 13, a) ==> AfterForFirst(LineAfter(e, invalid, name, ip), a)
  {
    var e := KeywordAt(ts, host) + |Keyword(st)|;
    if invalid {
      AfterInvalid(s, e, invalid, name, ip, rest);
    } else if name != [] {
      AfterPlain(s, e, invalid, name, ip, rest);
    } else {
      AfterEmpty(s, e, invalid, name, ip, rest);
    }
  }

  /** The slices the groups of that match cut out are the parts of the line. */
  lemma LineFields(s: string, ts: string, host: string, kw: string, ph: string, name: string,
                   ip: string, rest: string)
    requires Laid(s, ts, host, kw, ph, name, ip, rest)
    ensures var k := KeywordAt(ts, host); var n := k + |kw| + |ph|;
      Fields(s, ts, kw, name, ip, k, n)
  {
    var k := KeywordAt(ts, host);
    var n := k + |kw| + |ph|;
    PlacedSlice(s, 0, ts);
    PlacedSlice(s, k, kw);
    PlacedSlice(s, n, name);
    PlacedSlice(s, n + |name| + 6, ip);
  }

  /** The timestamp, the keyword, the name and the address are the slices of `s` at `0`, `k`, `n`
      and six characters after the name. */
  predicate Fields(s: string, ts: string, kw: string, name: string, ip: string, k: nat, n: nat) {
    |ts| <= k && k + |kw| <= n && n + |name| + 6 + |ip| <= |s|
    && s[0..|ts|] == ts && s[k..k + |kw|] == kw && s[n..n + |name|] == name
    && s[n + |name| + 6..n + |name| + 6 + |ip|] == ip
  }

  /** A line that starts and ends with a character that is not a space is its own strip. */
  lemma StripNoop(s: string)
    requires s != [] && !IsSpace(s[0]) && !IsSpace(s[|s| - 1])
    ensures Strip(s) == s
  {
    assert StripStart(s) == 0;
    assert StripEnd(s, 0, |s|) == |s|;
  }

  /** A password line starts with the timestamp's first letter and ends with the address or the
      rest, so stripping leaves it as it is. */
  lemma LineStripped(s: string, ts: string, a: nat, ip: string, rest: string, stamp: Stamp)
    requires Placed(s, 0, ts) && Placed(s, a, ip) && Placed(s, a + |ip|, rest) && |s| == a + |ip| + |rest|
    requires StampShape(ts, 0, stamp)
    requires ip != [] && (forall c :: c in ip ==> !IsSpace(c))
    requires rest == [] || !IsSpace(rest[|rest| - 1])
    ensures Strip(s) == s
  {
    PlacedAt(s, 0, ts, 0);
    assert IsWord(ts[0]);
    if rest == [] {
      PlacedAt(s, a, ip, |s| - 1);
      assert ip[|ip| - 1] in ip;
    } else {
      PlacedAt(s, a + |ip|, rest, |s| - 1);
    }
    StripNoop(s);
  }

  /** A line that is its own strip, with the groups of its first match given. */
  lemma ParseOfFirst(s: string, m: Split, r: LogEntry)
    requires Strip(s) == s && FirstMatch(s) == Some(m)
    requires var a := m.body.after;
      s[m.start..StampEnd(m.stamp)] == r.timestamp && s[m.k..KeywordEnd(m.k, m.body)] == r.status
      && s[a.nameStart..a.rest.nameEnd] == r.username && s[a.rest.tail.ip..a.rest.tail.ipEnd] == r.ipAddress
      && s == r.rawContent
    ensures Parse(s) == Some(r)
  {
  }

  /** A line that is its own strip, whose first match puts its groups at the parts. */
  lemma ParseOfParts(s: string, ts: string, kw: string, name: string, ip: string, k: nat, n: nat,
                     m: Split)
    requires Fields(s, ts, kw, name, ip, k, n)
    requires Strip(s) == s && FirstMatch(s) == Some(m)
    requires var a := m.body.after;
      m.start == 0 && StampEnd(m.stamp) == |ts| && m.k == k && KeywordEnd(m.k, m.body) == k + |kw|
      && a.nameStart == n && a.rest.nameEnd == n + |name|
      && a.rest.tail.ip == n + |name| + 6 && a.rest.tail.ipEnd == n + |name| + 6 + |ip|
    ensures Parse(s) == Some(LogEntry(ts, kw, name, ip, s))
  {
    ParseOfFirst(s, m, LogEntry(ts, kw, name, ip, s));
  }

  /** A line laid out as a password line is its own strip, and its first match is the one
      `LineSplit` gives. */
  lemma LineFacts(s: string, ts: string, host: string, st: Status, invalid: bool, name: string,
                  ip: string, rest: string, stamp: Stamp)
    requires Laid(s, ts, host, Keyword(st), Phrase(invalid), name, ip, rest)
    requires WellFormed(ts, host, invalid, name, ip, rest)
    requires StampShape(ts, 0, stamp) && StampEnd(stamp) == |ts|
    ensures Strip(s) == s && FirstMatch(s) == Some(LineSplit(stamp, ts, host, st, invalid, name, ip))
  {
    var n := KeywordAt(ts, host) + |Keyword(st)| + |Phrase(invalid)|;
    LineStripped(s, ts, n + |name| + 6, ip, rest, stamp);
    LineIsFirst(s, ts, host, st, invalid, name, ip, rest, stamp);
  }

  /** The line `SshdLine` builds is its own strip, its first match is the one `LineSplit` gives,
      and the timestamp, keyword, name and address are the slices at that match's groups. */
  lemma SshdLineFacts(ts: string, host: string, st: Status, invalid: bool, name: string, ip: string,
                      rest: string, stamp: Stamp)
    requires WellFormed(ts, host, invalid, name, ip, rest)
    requires StampShape(ts, 0, stamp) && StampEnd(stamp) == |ts|
    ensures var s := SshdLine(ts, host, st, invalid, name, ip, rest);
      && Fields(s, ts, Keyword(st), name, ip, KeywordAt(ts, host), KeywordAt(ts, host) + |Keyword(st)| + |Phrase(invalid)|)
      && Strip(s) == s && FirstMatch(s) == Some(LineSplit(stamp, ts, host, st, invalid, name, ip))
  {
    var s := SshdLine(ts, host, st, invalid, name, ip, rest);
    LaidOut(ts, host, Keyword(st), Phrase(invalid), name, ip, rest);
    LineFields(s, ts, host, Keyword(st), Phrase(invalid), name, ip, rest);
    LineFacts(s, ts, host, st, invalid, name, ip, rest, stamp);
  }

  /** The record `parse_line` returns for a line that is its own strip and whose first match is the
      one `LineSplit` gives. */
  lemma LineParses(s: string, ts: string, host: string, st: Status, invalid: bool, name: string,
                   ip: string, stamp: Stamp)
    requires Fields(s, ts, Keyword(st), name, ip, KeywordAt(ts, host), KeywordAt(ts, host) + |Keyword(st)| + |Phrase(invalid)|)
    requires Strip(s) == s && FirstMatch(s) == Some(LineSplit(stamp, ts, host, st, invalid, name, ip))
    requires StampEnd(stamp) == |ts|
    ensures Parse(s) == Some(LogEntry(ts, Keyword(st), name, ip, s))
  {
    ParseOfParts(s, ts, Keyword(st), name, ip, KeywordAt(ts, host), KeywordAt(ts, host) + |Keyword(st)| + |Phrase(invalid)|,
                 LineSplit(stamp, ts, host, st, invalid, name, ip));
  }

  /** `parse_line` returns the timestamp, the keyword, the user name and the address of a
      password line, and the line itself as the raw content. */
  lemma SshdLineParses(ts: string, host: string, st: Status, invalid: bool, name: string, ip: string,
                       rest: string)
    requires WellFormed(ts, host, invalid, name, ip, rest)
    ensures var s := SshdLine(ts, host, st, invalid, name, ip, rest);
      Parse(s) == Some(LogEntry(ts, Keyword(st), name, ip, s))
  {
    var stamp :| StampShape(ts, 0, stamp) && StampEnd(stamp) == |ts|;
    SshdLineFacts(ts, host, st, invalid, name, ip, rest, stamp);
    LineParses(SshdLine(ts, host, st, invalid, name, ip, rest), ts, host, st, invalid, name, ip, stamp);
  }

  // ---------------------------------------------------------------------------------------------
  // The lines of the parser tests.
  // ---------------------------------------------------------------------------------------------

  /** The host and process part of the test lines, for a process id. */
  function Server(pid: string): string {
    " server sshd[" + pid + "]: "
  }

  /** What the test lines have after the address. */
  const Port := " port 22 ssh2"

  /** The timestamps of the test lines: 3 February, `minute` minutes past twelve. */
  function Clock(minute: string): string {
    "Feb 03 12:" + minute + ":00"
  }

  lemma ClockStamp(minute: string)
    requires |minute| == 2 && IsDigit(minute[0]) && IsDigit(minute[1])
    ensures |Clock(minute)| == 15 && StampShape(Clock(minute), 0, Stamp(4, 6))
  {
  }

  /** A test line (a process id, the status, whether the user is marked invalid, the name and the
      address) parses into its timestamp, status, name and address. */
  lemma TestLineParses(minute: string, pid: string, st: Status, invalid: bool, name: string, ip: string)
    requires |minute| == 2 && IsDigit(minute[0]) && IsDigit(minute[1])
    requires '\n' !in pid && 'F' !in pid && 'A' !in pid
    requires '\n' !in name && 'f' !in name
    requires name == [] || (!IsSpace(name[0]) && !IsSpace(name[|name| - 1]))
    requires if invalid then name != [] else !LitAt(name, 0, "invalid")
    requires ip != [] && (forall c :: c in ip ==> !IsSpace(c))
    requires name == [] ==> 'f' !in ip
    ensures var line := SshdLine(Clock(minute), Server(pid), st, invalid, name, ip, Port);
      Parse(line) == Some(LogEntry(Clock(minute), Keyword(st), name, ip, line))
  {
    var ts, host := Clock(minute), Server(pid);
    ClockStamp(minute);
    assert IsTimestamp(ts);
    assert '\n' !in host && 'F' !in host && 'A' !in host;
    assert IsSpace(Port[0]) && !IsSpace(Port[|Port| - 1]) && 'f' !in Port;
    SshdLineParses(ts, host, st, invalid, name, ip, Port);
  }

  /** tests/test_parser.py:6: a failed password for an ordinary user. */
  lemma ValidLineParses()
    ensures var line := SshdLine(Clock("00"), Server("123"), Failed, false, "ritam", "192.168.1.1", Port);
      Parse(line) == Some(LogEntry(Clock("00"), "Failed", "ritam", "192.168.1.1", line))
  {
    TestLineParses("00", "123", Failed, false, "ritam", "192.168.1.1");
  }

  /** tests/test_parser.py:17: an accepted password. */
  lemma AcceptedLineParses()
    ensures var line := SshdLine(Clock("05"), Server("123"), Accepted, false, "admin", "10.0.0.5", Port);
      Parse(line) == Some(LogEntry(Clock("05"), "Accepted", "admin", "10.0.0.5", line))
  {
    TestLineParses("05", "123", Accepted, false, "admin", "10.0.0.5");
  }

  /** tests/test_parser.py:26: no name between the two spaces gives the empty user name. */
  lemma GhostLineParses()
    ensures var line := SshdLine(Clock("10"), Server("124"), Failed, false, "", "192.168.1.1", Port);
      Parse(line) == Some(LogEntry(Clock("10"), "Failed", "", "192.168.1.1", line))
  {
    TestLineParses("10", "124", Failed, false, "", "192.168.1.1");
  }

  /** tests/test_parser.py:35: a name holding markup and a space is returned as written. */
  lemma MarkupLineParses()
    ensures var line := SshdLine(Clock("15"), Server("125"), Failed, false, "[bold red]admin[/bold red]",
                                 "1.2.3.4", Port);
      Parse(line) == Some(LogEntry(Clock("15"), "Failed", "[bold red]admin[/bold red]", "1.2.3.4", line))
  {
    var name := "[bold red]admin[/bold red]";
    assert name[0 + 0] != "invalid"[0];
    TestLineParses("15", "125", Failed, false, name, "1.2.3.4");
  }

  /** tests/test_parser.py:43: "invalid user" is not part of the user name. */
  lemma InvalidUserLineParses()
    ensures var line := SshdLine(Clock("20"), Server("126"), Failed, true, "hacker", "1.2.3.4", Port);
      Parse(line) == Some(LogEntry(Clock("20"), "Failed", "hacker", "1.2.3.4", line))
  {
    TestLineParses("20", "126", Failed, true, "hacker", "1.2.3.4");
  }
}
