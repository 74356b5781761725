/** The security summary main.py prints once every line is read: the addresses whose failure count
    reached the threshold, listed by count, most failures first, or the message that there is no
    suspicious activity. */
module Summary {

  /** One `(ip, count)` item of the failure dictionary. */
  datatype Offender = Offender(ip: string, count: nat)

  /** The addresses of `xs`, in order. */
  function Ips(xs: seq<Offender>): seq<string> {
    seq(|xs|, i requires 0 <= i < |xs| => xs[i].ip)
  }

  /** `xs` is `ys` with some elements left out. */
  predicate SubseqOf(xs: seq<string>, ys: seq<string>)
    decreases |ys|
  {
    if xs == [] then true
    else if ys == [] then false
    else (xs[0] == ys[0] && SubseqOf(xs[1..], ys[1..])) || SubseqOf(xs, ys[1..])
  }

  /** `{ip: count for ip, count in failed_attempts.items() if count >= threshold}`: the dictionary
      is given by its keys in insertion order and its values. The comprehension keeps that order. */
  function Flagged(order: seq<string>, counts: map<string, nat>, threshold: int): (r: seq<Offender>)
    requires forall ip :: ip in order ==> ip in counts
    ensures |r| <= |order|
    ensures forall o :: o in r <==> o.ip in order && o.count == counts[o.ip] && o.count >= threshold
    ensures SubseqOf(Ips(r), order)
  {
    if order == [] then []
    else
      var ip := order[0];
      var rest := Flagged(order[1..], counts, threshold);
      assert forall x :: x in order <==> x == ip || x in order[1..];
      if counts[ip] >= threshold then
        var r := [Offender(ip, counts[ip])] + rest;
        assert Ips(r)[0] == ip && Ips(r)[1..] == Ips(rest);
        r
      else
        rest
  }

  /** Counts never increase along `xs`. */
  predicate SortedDesc(xs: seq<Offender>) {
    forall i, j :: 0 <= i < j < |xs| ==> xs[i].count >= xs[j].count
  }

  /** A sorted sequence stays sorted when an item no smaller than all of it goes in front. */
  lemma HeadSorted(x: Offender, t: seq<Offender>)
    requires SortedDesc(t) && forall y :: y in t ==> y.count <= x.count
    ensures SortedDesc([x] + t)
  {
    var r := [x] + t;
    forall i, j | 0 <= i < j < |r|
      ensures r[i].count >= r[j].count
    {
      assert r[j] == t[j - 1];
      if i > 0 {
        assert r[i] == t[i - 1];
      }
    }
  }

  /** The items of `xs` with count `c`, in their order in `xs`. */
  function WithCount(xs: seq<Offender>, c: nat): seq<Offender> {
    if xs == [] then []
    else if xs[0].count == c then [xs[0]] + WithCount(xs[1..], c)
    else WithCount(xs[1..], c)
  }

  /** Put `o` in front of the first item whose count is not larger than its own. */
  function Insert(o: Offender, ys: seq<Offender>): (r: seq<Offender>)
    ensures multiset(r) == multiset{o} + multiset(ys)
  {
    if ys == [] || ys[0].count <= o.count then [o] + ys
    else
      assert ys == [ys[0]] + ys[1..];
      [ys[0]] + Insert(o, ys[1..])
  }

  /** `sorted(items, key=lambda x: x[1], reverse=True)`: a stable sort by count, descending. */
  function SortByCount(xs: seq<Offender>): (r: seq<Offender>)
    ensures multiset(r) == multiset(xs)
    ensures SortedDesc(r)
  {
    if xs == [] then []
    else
      assert xs == [xs[0]] + xs[1..];
      var r := Insert(xs[0], SortByCount(xs[1..]));
      InsertSorted(xs[0], SortByCount(xs[1..]));
      r
  }

  lemma {:induction false} InsertSorted(o: Offender, ys: seq<Offender>)
    requires SortedDesc(ys)
    ensures SortedDesc(Insert(o, ys))
  {
    if ys == [] || ys[0].count <= o.count {
    } else {
      var t := Insert(o, ys[1..]);
      InsertSorted(o, ys[1..]);
      forall x | x in t
        ensures x.count <= ys[0].count
      {
        assert x in multiset(t);
        if x != o {
          assert x in multiset(ys[1..]);
          var j :| 0 <= j < |ys[1..]| && ys[1..][j] == x;
          assert ys[j + 1] == x;
        }
      }
      HeadSorted(ys[0], t);
    }
  }

  /** Inserting `o` in front of every item with a count not larger than its own keeps the items
      with `o`'s count in order, with `o` first. */
  lemma {:induction false} InsertStable(o: Offender, ys: seq<Offender>, c: nat)
    ensures WithCount(Insert(o, ys), c) == (if o.count == c then [o] else []) + WithCount(ys, c)
  {
    if ys == [] || ys[0].count <= o.count {
      assert ([o] + ys)[1..] == ys;
    } else {
      var t := Insert(o, ys[1..]);
      InsertStable(o, ys[1..], c);
      assert ([ys[0]] + t)[1..] == t;
    }
  }

  /** The sort is stable: items with equal counts keep their relative order. */
  lemma {:induction false} SortStable(xs: seq<Offender>, c: nat)
    ensures WithCount(SortByCount(xs), c) == WithCount(xs, c)
  {
    if xs != [] {
      SortStable(xs[1..], c);
      InsertStable(xs[0], SortByCount(xs[1..]), c);
    }
  }

  lemma {:induction false} WithCountMembers(xs: seq<Offender>, c: nat)
    ensures forall o :: o in WithCount(xs, c) <==> o in xs && o.count == c
  {
    if xs != [] {
      WithCountMembers(xs[1..], c);
      assert forall o :: o in xs <==> o == xs[0] || o in xs[1..];
    }
  }

  /** Being sorted by count and stable fixes the result: `SortByCount` is the only sequence that is
      sorted by count, descending, and lists the items of each count in their original order. */
  lemma {:induction false} SortUnique(xs: seq<Offender>, ys: seq<Offender>)
    requires SortedDesc(ys)
    requires forall c :: WithCount(ys, c) == WithCount(xs, c)
    ensures ys == SortByCount(xs)
  {
    var zs := SortByCount(xs);
    forall c ensures WithCount(ys, c) == WithCount(zs, c) {
      SortStable(xs, c);
    }
    SortedSameGroupsEqual(ys, zs);
  }

  lemma {:induction false} SortedSameGroupsEqual(ys: seq<Offender>, zs: seq<Offender>)
    requires SortedDesc(ys) && SortedDesc(zs)
    requires forall c :: WithCount(ys, c) == WithCount(zs, c)
    ensures ys == zs
    decreases |ys|
  {
    if ys == [] {
      if zs != [] {
        WithCountMembers(zs, zs[0].count);
      }
    } else if zs == [] {
      WithCountMembers(ys, ys[0].count);
    } else {
      var a, b := ys[0], zs[0];
      WithCountMembers(ys, b.count);
      WithCountMembers(zs, a.count);
      assert b in WithCount(zs, b.count);
      assert a in WithCount(ys, a.count);
      assert a.count == b.count;
      assert WithCount(ys, a.count)[0] == a;
      assert WithCount(zs, a.count)[0] == b;
      assert a == b;
      forall c ensures WithCount(ys[1..], c) == WithCount(zs[1..], c) {
        var p := if a.count == c then [a] else [];
        assert WithCount(ys, c) == p + WithCount(ys[1..], c);
        assert WithCount(zs, c) == p + WithCount(zs[1..], c);
        assert WithCount(ys[1..], c) == (p + WithCount(ys[1..], c))[|p|..];
        assert WithCount(zs[1..], c) == (p + WithCount(zs[1..], c))[|p|..];
      }
      SortedSameGroupsEqual(ys[1..], zs[1..]);
      assert ys == [a] + ys[1..] && zs == [b] + zs[1..];
    }
  }

  /** What the summary reports after the total: the offenders, or that there are none. */
  datatype Verdict = NoSuspiciousActivity | TopOffenders(offenders: seq<Offender>)

  /** The `if flagged:` branch of the summary. */
  function Summarize(order: seq<string>, counts: map<string, nat>, threshold: int): (v: Verdict)
    requires forall ip :: ip in order ==> ip in counts
    ensures v.NoSuspiciousActivity? <==> forall ip :: ip in order ==> counts[ip] < threshold
    ensures v.TopOffenders? ==> v.offenders != [] && SortedDesc(v.offenders)
    ensures v.TopOffenders? ==> multiset(v.offenders) == multiset(Flagged(order, counts, threshold))
    ensures v.TopOffenders? ==>
      forall c :: WithCount(v.offenders, c) == WithCount(Flagged(order, counts, threshold), c)
  {
    var flagged := Flagged(order, counts, threshold);
    if flagged != [] then
      assert forall c :: WithCount(SortByCount(flagged), c) == WithCount(flagged, c) by {
        forall c ensures WithCount(SortByCount(flagged), c) == WithCount(flagged, c) {
          SortStable(flagged, c);
        }
      }
      TopOffenders(SortByCount(flagged))
    else
      assert forall ip :: ip in order ==> Offender(ip, counts[ip]) !in flagged;
      NoSuspiciousActivity
  }
}
