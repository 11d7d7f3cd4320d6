/** The StatsD client: the bounded buffer and the greedy packing of buffered metrics into datagrams. */
module StatsD {
  type Metric = seq<bv8>

  const NEWLINE: bv8 := 10

  // ----- Joined text and splits -----

  /** The metrics joined by newlines. */
  function Join(ms: seq<Metric>): seq<bv8> {
    if ms == [] then [] else if |ms| == 1 then ms[0] else Join(ms[..|ms| - 1]) + [NEWLINE] + ms[|ms| - 1]
  }

  /** The size of the metrics with one separator after each. */
  function Weight(ms: seq<Metric>): nat {
    if ms == [] then 0 else Weight(ms[..|ms| - 1]) + |ms[|ms| - 1]| + 1
  }

  lemma {:induction false} JoinSize(ms: seq<Metric>)
    ensures |Join(ms)| == if ms == [] then 0 else Weight(ms) - 1
  {
    if |ms| == 1 {
      assert Weight(ms[..0]) == 0;
    } else if |ms| > 1 {
      JoinSize(ms[..|ms| - 1]);
    }
  }

  lemma {:induction false} WeightConcat(a: seq<Metric>, b: seq<Metric>)
    ensures Weight(a + b) == Weight(a) + Weight(b)
  {
    if b == [] {
      assert a + b == a;
    } else {
      var n := |b| - 1;
      WeightConcat(a, b[..n]);
      assert (a + b)[..|a + b| - 1] == a + b[..n];
    }
  }

  function Concat(groups: seq<seq<Metric>>): seq<Metric> {
    if groups == [] then [] else Concat(groups[..|groups| - 1]) + groups[|groups| - 1]
  }

  predicate Fits(mtu: nat, group: seq<Metric>) {
    |Join(group)| <= mtu
  }

  /** An order-preserving split of `ms` into groups whose joined text is within the MTU. */
  ghost predicate IsBoundedSplit(mtu: nat, groups: seq<seq<Metric>>, ms: seq<Metric>) {
    Concat(groups) == ms && forall i :: 0 <= i < |groups| ==> Fits(mtu, groups[i])
  }

  function JoinAll(groups: seq<seq<Metric>>): (texts: seq<seq<bv8>>)
    ensures |texts| == |groups| && forall i :: 0 <= i < |groups| ==> texts[i] == Join(groups[i])
  {
    seq(|groups|, i requires 0 <= i < |groups| => Join(groups[i]))
  }

  lemma NothingJoined()
    ensures JoinAll([]) == [] && Weight([]) == 0
  {
  }

  lemma JoinOneMore(groups: seq<seq<Metric>>, group: seq<Metric>)
    ensures JoinAll(groups + [group]) == JoinAll(groups) + [Join(group)]
  {
  }

  lemma JoinAllAreTexts(groups: seq<seq<Metric>>)
    ensures |JoinAll(groups)| == |groups| && forall i :: 0 <= i < |groups| ==> IsTextOf(JoinAll(groups)[i], groups[i])
  {
    forall i | 0 <= i < |groups| ensures IsTextOf(JoinAll(groups)[i], groups[i]) {
      JoinIsText(groups[i]);
    }
  }

  lemma WeightOneMore(ms: seq<Metric>, m: Metric)
    ensures Weight(ms + [m]) == Weight(ms) + |m| + 1
  {
    assert (ms + [m])[..|ms|] == ms;
  }

  // ----- What a datagram says -----

  /** Where the `k`-th metric starts in the text of its group. */
  function StartOf(group: seq<Metric>, k: nat): nat
    requires k <= |group|
  {
    if k == 0 then 0 else StartOf(group, k - 1) + |group[k - 1]| + 1
  }

  /** The metrics stand in the text one after another, with a newline byte between neighbours and nothing else. */
  ghost predicate IsTextOf(text: seq<bv8>, group: seq<Metric>) {
    && |text| == (if group == [] then 0 else StartOf(group, |group|) - 1)
    && (forall k :: 0 <= k < |group| ==> HoldsAt(text, StartOf(group, k), group[k]))
    && (forall k :: 0 <= k < |group| - 1 ==> HoldsAt(text, StartOf(group, k) + |group[k]|, [10]))
  }

  ghost predicate HoldsAt(text: seq<bv8>, at: nat, part: seq<bv8>) {
    at + |part| <= |text| && text[at..at + |part|] == part
  }

  lemma {:induction false} StartOfPrefix(group: seq<Metric>, n: nat, k: nat)
    requires k <= n <= |group|
    ensures StartOf(group[..n], k) == StartOf(group, k)
  {
    if k == 0 {
    } else {
      StartOfPrefix(group, n, k - 1);
    }
  }

  lemma {:induction false} JoinIsText(ms: seq<Metric>)
    ensures IsTextOf(Join(ms), ms)
  {
    hide IsTextOf;
    if ms == [] {
      NoText();
    } else if |ms| == 1 {
      OneMetricText(ms[0]);
      assert ms == [ms[0]];
    } else {
      var n := |ms| - 1;
      JoinIsText(ms[..n]);
      TextExtends(Join(ms[..n]), ms[..n], ms[n]);
      assert ms == ms[..n] + [ms[n]];
    }
  }

  lemma NoText()
    ensures IsTextOf([], [])
  {
  }

  lemma OneMetricText(m: Metric)
    ensures IsTextOf(m, [m])
  {
    assert StartOf([m], 1) == StartOf([m], 0) + |m| + 1;
    assert m[0..|m|] == m;
  }

  lemma TextExtends(text: seq<bv8>, group: seq<Metric>, m: Metric)
    requires group != [] && IsTextOf(text, group)
    ensures IsTextOf(text + [NEWLINE] + m, group + [m])
  {
    hide StartOf, HoldsAt;
    var n, longer, now := |group|, group + [m], text + [NEWLINE] + m;
    assert now == text + ([NEWLINE] + m);
    StartsKept(group, m);
    forall k | 0 <= k < n ensures HoldsAt(now, StartOf(longer, k), longer[k]) {
      HoldsInLonger(text, [NEWLINE] + m, StartOf(group, k), group[k]);
    }
    forall k | 0 <= k < n - 1 ensures HoldsAt(now, StartOf(longer, k) + |longer[k]|, [10]) {
      HoldsInLonger(text, [NEWLINE] + m, StartOf(group, k) + |group[k]|, [10]);
    }
    HoldsBehind(text, [NEWLINE], m);
    HoldsBehind(text + [NEWLINE], m, []);
    assert text + [NEWLINE] + m + [] == now;
  }

  lemma StartsKept(group: seq<Metric>, m: Metric)
    ensures forall k :: 0 <= k <= |group| ==> StartOf(group + [m], k) == StartOf(group, k)
    ensures StartOf(group + [m], |group| + 1) == StartOf(group, |group|) + |m| + 1
    ensures group != [] ==>
              StartOf(group, |group|) == StartOf(group, |group| - 1) + |group[|group| - 1]| + 1
  {
    assert (group + [m])[..|group|] == group;
    forall k | 0 <= k <= |group| ensures StartOf(group + [m], k) == StartOf(group, k) {
      StartOfPrefix(group + [m], |group|, k);
    }
  }

  lemma HoldsBehind(text: seq<bv8>, part: seq<bv8>, rest: seq<bv8>)
    ensures HoldsAt(text + part + rest, |text|, part)
  {
    assert (text + part + rest)[|text|..|text| + |part|] == part;
  }

  lemma HoldsInLonger(text: seq<bv8>, rest: seq<bv8>, at: nat, part: seq<bv8>)
    requires HoldsAt(text, at, part)
    ensures HoldsAt(text + rest, at, part)
  {
    assert (text + rest)[at..at + |part|] == text[at..at + |part|];
  }

  predicate HasNewline(m: Metric) {
    exists i :: 0 <= i < |m| && m[i] == 10
  }

  /** What the server reads: the parts of the text between newline bytes. */
  function Lines(text: seq<bv8>): (lines: seq<seq<bv8>>)
    ensures lines != []
  {
    if text == [] then [[]]
    else
      var rest := Lines(text[1..]);
      if text[0] == 10 then [[]] + rest else [[text[0]] + rest[0]] + rest[1..]
  }

  lemma {:induction false} LinesOfMetric(m: Metric, rest: seq<bv8>)
    requires !HasNewline(m)
    ensures Lines(m) == [m] && Lines(m + [10] + rest) == [m] + Lines(rest)
  {
    if m == [] {
      assert ([] + [10] + rest)[1..] == rest;
    } else {
      var tail, text := m[1..], m + [10] + rest;
      assert forall i :: 0 <= i < |tail| ==> tail[i] == m[i + 1];
      LinesOfMetric(tail, rest);
      assert text[1..] == tail + [10] + rest && text[0] == m[0] != 10;
      assert m == [m[0]] + tail;
      assert Lines(m) == [[m[0]] + tail] + [];
      assert Lines(text) == [[m[0]] + tail] + Lines(rest);
    }
  }

  lemma {:induction false} LinesOfText(lines: seq<Metric>, last: Metric)
    requires !HasNewline(last) && forall m :: m in lines ==> !HasNewline(m)
    ensures Lines(Join(lines + [last])) == lines + [last]
  {
    if lines == [] {
      LinesOfMetric(last, []);
      assert lines + [last] == [last];
    } else {
      var rest := lines[1..];
      LinesOfText(rest, last);
      JoinFirst(lines[0], rest + [last]);
      assert lines + [last] == [lines[0]] + (rest + [last]);
      LinesOfMetric(lines[0], Join(rest + [last]));
    }
  }

  lemma {:induction false} JoinFirst(m: Metric, ms: seq<Metric>)
    requires ms != []
    ensures Join([m] + ms) == m + [10] + Join(ms)
  {
    var n := |ms| - 1;
    assert ([m] + ms)[..n + 1] == [m] + ms[..n];
    if n == 0 {
      assert Join([m]) == m && ms[..0] == [];
    } else {
      JoinFirst(m, ms[..n]);
    }
  }

  /** Nothing is read from an empty datagram. */
  function LinesOfAll(texts: seq<seq<bv8>>): seq<seq<bv8>> {
    if texts == [] then []
    else
      var last := texts[|texts| - 1];
      LinesOfAll(texts[..|texts| - 1]) + if last == [] then [] else Lines(last)
  }

  /** If no metric is empty or contains a newline byte, the server reads the metrics of the buffer in order. */
  lemma {:induction false} ServerReadsBuffer(groups: seq<seq<Metric>>)
    requires forall m :: m in Concat(groups) ==> m != [] && !HasNewline(m)
    ensures LinesOfAll(JoinAll(groups)) == Concat(groups)
  {
    hide HasNewline, Lines, Join;
    if groups == [] {
    } else {
      var n := |groups| - 1;
      var last := groups[n];
      assert JoinAll(groups)[..n] == JoinAll(groups[..n]) && JoinAll(groups)[n] == Join(last);
      assert Concat(groups) == Concat(groups[..n]) + last;
      assert forall m :: m in last ==> m in Concat(groups);
      assert forall m :: m in Concat(groups[..n]) ==> m in Concat(groups);
      ServerReadsBuffer(groups[..n]);
      ServerReadsGroup(last);
    }
  }

  lemma ServerReadsGroup(group: seq<Metric>)
    requires forall m :: m in group ==> m != [] && !HasNewline(m)
    ensures (if Join(group) == [] then [] else Lines(Join(group))) == group
  {
    JoinSize(group);
    if group == [] {
    } else {
      assert group[0] in group;
      MemberSize(group, group[0]);
      var n := |group| - 1;
      assert group == group[..n] + [group[n]];
      LinesOfText(group[..n], group[n]);
    }
  }

  // ----- Greedy packing -----

  /** Within the MTU, or one metric that is larger on its own. */
  predicate Admissible(mtu: nat, group: seq<Metric>) {
    Fits(mtu, group) || (|group| == 1 && |group[0]| > mtu)
  }

  /** An order-preserving split of `ms` into such groups: the closest that any packing comes to the MTU. */
  ghost predicate IsAdmissibleSplit(mtu: nat, groups: seq<seq<Metric>>, ms: seq<Metric>) {
    Concat(groups) == ms && forall i :: 0 <= i < |groups| ==> Admissible(mtu, groups[i])
  }

  /** `group` could not have taken over the first metric of `next`. */
  predicate Blocks(mtu: nat, group: seq<Metric>, next: seq<Metric>) {
    next != [] && Weight(group) + |next[0]| > mtu
  }

  ghost predicate Tight(mtu: nat, groups: seq<seq<Metric>>) {
    forall i :: 0 <= i < |groups| - 1 ==> Blocks(mtu, groups[i], groups[i + 1])
  }

  /** What packing keeps after any number of metrics: `groups` are closed, `current` is still open. */
  ghost predicate Packing(mtu: nat, groups: seq<seq<Metric>>, current: seq<Metric>, packed: seq<Metric>) {
    && Concat(groups) + current == packed
    && (if packed == [] then groups == [] else current != [])
    && (forall i :: 0 <= i < |groups| ==> Admissible(mtu, groups[i])) && Admissible(mtu, current)
    && (packed != [] && |packed[0]| > mtu ==> groups != [])
    && (packed != [] ==> forall i :: 0 <= i < |groups| ==> (groups[i] == [] <==> i == 0 && |packed[0]| > mtu))
    && Tight(mtu, groups + [current])
  }

  lemma PackingStarts(mtu: nat)
    ensures Packing(mtu, [], [], [])
  {
  }

  lemma SingleGroup(m: Metric)
    ensures Weight([m]) == |m| + 1 && Join([m]) == m
  {
    assert [m][..0] == [];
  }

  lemma TightExtends(mtu: nat, groups: seq<seq<Metric>>, current: seq<Metric>, m: Metric)
    requires Tight(mtu, groups + [current]) && (current == [] ==> groups == [])
    ensures Tight(mtu, groups + [current + [m]])
  {
    var all, all' := groups + [current], groups + [current + [m]];
    forall i | 0 <= i < |all'| - 1 ensures Blocks(mtu, all'[i], all'[i + 1]) {
      assert Blocks(mtu, all[i], all[i + 1]) && all'[i] == all[i];
    }
  }

  lemma TightCloses(mtu: nat, groups: seq<seq<Metric>>, current: seq<Metric>, m: Metric)
    requires Tight(mtu, groups + [current]) && Weight(current) + |m| > mtu
    ensures Tight(mtu, groups + [current] + [[m]])
  {
    var all, all' := groups + [current], groups + [current] + [[m]];
    forall i | 0 <= i < |all'| - 1 ensures Blocks(mtu, all'[i], all'[i + 1]) {
      if i < |all| - 1 {
        assert Blocks(mtu, all[i], all[i + 1]);
      }
    }
  }

  lemma ExtendedFits(mtu: nat, current: seq<Metric>, m: Metric)
    requires Weight(current) + |m| <= mtu
    ensures Fits(mtu, current + [m])
  {
    assert (current + [m])[..|current|] == current;
    JoinSize(current + [m]);
  }

  /** A metric that still fits joins the open group. */
  lemma PackingExtends(mtu: nat, groups: seq<seq<Metric>>, current: seq<Metric>, packed: seq<Metric>, m: Metric)
    requires Packing(mtu, groups, current, packed) && Weight(current) + |m| <= mtu
    ensures Packing(mtu, groups, current + [m], packed + [m])
  {
    hide Tight, Fits, Concat, Weight;
    ExtendedFits(mtu, current, m);
    TightExtends(mtu, groups, current, m);
    assert Concat(groups) + (current + [m]) == packed + [m];
    assert packed != [] ==> (packed + [m])[0] == packed[0];
  }

  /** A metric that does not fit closes the open group and starts the next. */
  lemma PackingCloses(mtu: nat, groups: seq<seq<Metric>>, current: seq<Metric>, packed: seq<Metric>, m: Metric)
    requires Packing(mtu, groups, current, packed) && Weight(current) + |m| > mtu
    ensures Packing(mtu, groups + [current], [m], packed + [m])
  {
    hide Tight;
    TightCloses(mtu, groups, current, m);
    var all := groups + [current];
    SingleGroup(m);
    assert all[..|all| - 1] == groups;
    assert Concat(all) + [m] == packed + [m];
    assert packed != [] ==> (packed + [m])[0] == packed[0];
  }

  // ----- Optimality -----

  lemma {:induction false} ConcatPrefix(groups: seq<seq<Metric>>, k: nat)
    requires k <= |groups|
    ensures Concat(groups[..k]) <= Concat(groups)
    decreases |groups|
  {
    if k < |groups| {
      var n := |groups| - 1;
      ConcatPrefix(groups[..n], k);
      assert groups[..n][..k] == groups[..k];
    } else {
      assert groups[..k] == groups;
    }
  }

  lemma ConcatNext(groups: seq<seq<Metric>>, k: nat)
    requires k < |groups|
    ensures Concat(groups[..k + 1]) == Concat(groups[..k]) + groups[k]
  {
    assert groups[..k + 1][..k] == groups[..k];
  }

  /** The `k`-th group is the slice between the ends of the first `k` and the first `k + 1` groups. */
  lemma GroupIsSlice(groups: seq<seq<Metric>>, k: nat)
    requires k < |groups|
    ensures var a, b := |Concat(groups[..k])|, |Concat(groups[..k + 1])|;
            a <= b <= |Concat(groups)| && groups[k] == Concat(groups)[a..b]
  {
    ConcatNext(groups, k);
    ConcatPrefix(groups, k + 1);
    var a, b := |Concat(groups[..k])|, |Concat(groups[..k + 1])|;
    assert Concat(groups)[..b] == Concat(groups[..k + 1]);
    assert Concat(groups)[a..b] == Concat(groups)[..b][a..];
  }

  lemma SliceWeight(ms: seq<Metric>, a: nat, c: nat, d: nat, b: nat)
    requires a <= c <= d <= b <= |ms|
    ensures Weight(ms[c..d]) <= Weight(ms[a..b])
  {
    assert ms[a..b] == ms[a..c] + ms[c..d] + ms[d..b];
    WeightConcat(ms[a..c] + ms[c..d], ms[d..b]);
    WeightConcat(ms[a..c], ms[c..d]);
  }

  ghost predicate Greedy(mtu: nat, groups: seq<seq<Metric>>) {
    Tight(mtu, groups) && forall i :: 0 <= i < |groups| ==> groups[i] != []
  }

  /** A group that starts no later than a greedy group and ends beyond it is too large, and has two metrics. */
  lemma OvershootDoesNotFit(mtu: nat, greedy: seq<seq<Metric>>, ms: seq<Metric>, k: nat, a: nat, b: nat)
    requires Greedy(mtu, greedy) && Concat(greedy) == ms && k + 1 < |greedy|
    requires a <= |Concat(greedy[..k])| && |Concat(greedy[..k + 1])| < b && a <= b <= |ms|
    ensures !Admissible(mtu, ms[a..b])
  {
    GroupIsSlice(greedy, k);
    GroupIsSlice(greedy, k + 1);
    var g0, g1 := |Concat(greedy[..k])|, |Concat(greedy[..k + 1])|;
    assert Blocks(mtu, greedy[k], greedy[k + 1]);
    var next := greedy[k + 1][0];
    assert ms[g1] == next;
    assert ms[g0..g1 + 1] == greedy[k] + [next];
    WeightConcat(greedy[k], [next]);
    SingleGroup(next);
    SliceWeight(ms, a, g0, g1 + 1, b);
    JoinSize(ms[a..b]);
  }

  /** After `k` groups the greedy split has covered at least as much as any other admissible split. */
  lemma {:induction false} GreedyStaysAhead(mtu: nat, greedy: seq<seq<Metric>>, other: seq<seq<Metric>>,
                                            ms: seq<Metric>, k: nat)
    requires Greedy(mtu, greedy) && Concat(greedy) == ms && IsAdmissibleSplit(mtu, other, ms)
    requires k <= |greedy| && k <= |other|
    ensures |Concat(other[..k])| <= |Concat(greedy[..k])|
  {
    if k == 0 {
    } else {
      GreedyStaysAhead(mtu, greedy, other, ms, k - 1);
      GroupIsSlice(other, k - 1);
      assert Admissible(mtu, other[k - 1]);
      if k == |greedy| {
        assert greedy[..k] == greedy;
      } else if |Concat(greedy[..k])| < |Concat(other[..k])| {
        OvershootDoesNotFit(mtu, greedy, ms, k - 1, |Concat(other[..k - 1])|, |Concat(other[..k])|);
      }
    }
  }

  /** No admissible split has fewer groups than the greedy one. */
  lemma GreedyIsOptimal(mtu: nat, greedy: seq<seq<Metric>>, other: seq<seq<Metric>>, ms: seq<Metric>)
    requires Greedy(mtu, greedy) && Concat(greedy) == ms && IsAdmissibleSplit(mtu, other, ms)
    ensures |greedy| <= |other|
  {
    var k := |other|;
    if k < |greedy| {
      GreedyStaysAhead(mtu, greedy, other, ms, k);
      assert other[..k] == other;
      GroupIsSlice(greedy, k);
      ConcatNext(greedy, k);
    }
  }

  // ----- The client -----

  /** The last `n` metrics. */
  function Latest(ms: seq<Metric>, n: nat): (r: seq<Metric>)
    ensures |r| == (if |ms| <= n then |ms| else n) && r == ms[|ms| - |r|..]
  {
    if |ms| <= n then ms else ms[|ms| - n..]
  }

  lemma LatestOfLatest(a: seq<Metric>, m: Metric, n: nat)
    ensures Latest(Latest(a, n) + [m], n) == Latest(a + [m], n)
  {
  }

  /** The groups that packing `ms` produces: lossless, each oversized metric alone, an empty group only in
      front of an oversized first metric, and every other group within the MTU. */
  ghost predicate IsPacked(mtu: nat, groups: seq<seq<Metric>>, ms: seq<Metric>) {
    && Concat(groups) == ms
    && (forall i :: 0 <= i < |groups| ==> Admissible(mtu, groups[i]))
    && (forall i, m :: 0 <= i < |groups| && m in groups[i] && |m| > mtu ==> groups[i] == [m])
    && (forall i :: 0 <= i < |groups| ==> (groups[i] == [] <==> i == 0 && ms != [] && |ms[0]| > mtu))
    && (ms != [] && |ms[0]| > mtu ==> groups != [])
    && (forall other :: IsAdmissibleSplit(mtu, other, ms) ==> |WithoutEmptyHead(groups)| <= |other|)
  }

  /** The groups that hold metrics. */
  function WithoutEmptyHead(groups: seq<seq<Metric>>): seq<seq<Metric>> {
    if groups != [] && groups[0] == [] then groups[1..] else groups
  }

  lemma {:induction false} EmptyHeadAddsNothing(groups: seq<seq<Metric>>)
    ensures Concat(WithoutEmptyHead(groups)) == Concat(groups)
  {
    if |groups| > 1 {
      var before := groups[..|groups| - 1];
      EmptyHeadAddsNothing(before);
      if groups[0] == [] {
        assert groups[1..][..|groups| - 2] == before[1..];
      }
    } else if groups == [[]] {
      assert Concat(groups) == Concat(groups[..0]) + groups[0];
    }
  }

  /** With no oversized metric the packing is within the MTU, and no split within the MTU has fewer groups. */
  lemma PackedFitsIsOptimal(mtu: nat, groups: seq<seq<Metric>>, ms: seq<Metric>)
    requires IsPacked(mtu, groups, ms) && forall m :: m in ms ==> |m| <= mtu
    ensures IsBoundedSplit(mtu, groups, ms)
    ensures forall other :: IsBoundedSplit(mtu, other, ms) ==> |groups| <= |other|
  {
    assert ms != [] ==> ms[0] in ms;
    forall i | 0 <= i < |groups| ensures Fits(mtu, groups[i]) {
      GroupIsSlice(groups, i);
      assert groups[i] != [] ==> groups[i][0] in ms;
    }
    forall other | IsBoundedSplit(mtu, other, ms) ensures |groups| <= |other| {
      assert IsAdmissibleSplit(mtu, other, ms);
    }
  }

  lemma {:induction false} MemberSize(ms: seq<Metric>, m: Metric)
    requires m in ms
    ensures |m| < Weight(ms) && (|ms| > 1 ==> |m| + 1 < Weight(ms))
  {
    var n := |ms| - 1;
    if m in ms[..n] {
      MemberSize(ms[..n], m);
    } else if n > 0 {
      MemberSize(ms[..n], ms[n - 1]);
    }
  }

  lemma OversizedIsAlone(mtu: nat, group: seq<Metric>, m: Metric)
    requires Admissible(mtu, group) && m in group && |m| > mtu
    ensures group == [m]
  {
    MemberSize(group, m);
    JoinSize(group);
  }

  /** Closing the last group of a finished packing gives the promised split. */
  lemma PackingEnds(mtu: nat, groups: seq<seq<Metric>>, current: seq<Metric>, ms: seq<Metric>)
    requires Packing(mtu, groups, current, ms) && ms != []
    ensures IsPacked(mtu, groups + [current], ms)
  {
    hide Join, Weight, Admissible, Blocks, WithoutEmptyHead;
    var all := groups + [current];
    assert all[..|groups|] == groups;
    forall i, m | 0 <= i < |all| && m in all[i] && |m| > mtu ensures all[i] == [m] {
      OversizedIsAlone(mtu, all[i], m);
    }
    FewestGroups(mtu, all, ms);
  }

  lemma FewestGroups(mtu: nat, groups: seq<seq<Metric>>, ms: seq<Metric>)
    requires Tight(mtu, groups) && Concat(groups) == ms
    requires forall i :: 0 < i < |groups| ==> groups[i] != []
    ensures forall other :: IsAdmissibleSplit(mtu, other, ms) ==> |WithoutEmptyHead(groups)| <= |other|
  {
    hide Join, Weight, Admissible, Blocks, Concat;
    var full := WithoutEmptyHead(groups);
    EmptyHeadAddsNothing(groups);
    forall i | 0 <= i < |full| - 1 ensures Blocks(mtu, full[i], full[i + 1]) {
      var k := if groups[0] == [] then i + 1 else i;
      assert Blocks(mtu, groups[k], groups[k + 1]);
    }
    forall other | IsAdmissibleSplit(mtu, other, ms) ensures |full| <= |other| {
      GreedyIsOptimal(mtu, full, other, ms);
    }
  }

  class StatsDClient {
    const mtu: nat
    const bufferSize: nat
    var buffer: seq<Metric>
    /** Everything submitted since the last flush. */
    ghost var submitted: seq<Metric>
    var sent: nat
    var dropped: nat
    var errors: nat

    constructor (mtu: nat, bufferSize: nat)
      requires mtu > 0 && bufferSize > 0
      ensures this.mtu == mtu && this.bufferSize == bufferSize && Valid() && submitted == []
      ensures sent == dropped == errors == 0
    {
      this.mtu, this.bufferSize := mtu, bufferSize;
      buffer, submitted, sent, dropped, errors := [], [], 0, 0, 0;
    }

    /** The buffer holds the latest metrics submitted, as many as it has room for. */
    ghost predicate Valid()
      reads this
    {
      bufferSize > 0 && buffer == Latest(submitted, bufferSize)
    }

    /** Buffers a formatted metric; a full buffer discards its oldest metric and counts nothing. */
    method Submit(metric: Metric) returns (flushDue: bool)
      requires Valid()
      modifies this`buffer, this`submitted
      ensures Valid() && submitted == old(submitted) + [metric]
      ensures flushDue <==> |old(buffer)| + 1 >= bufferSize
    {
      LatestOfLatest(submitted, metric, bufferSize);
      submitted := submitted + [metric];
      buffer := buffer + [metric];
      if |buffer| > bufferSize {
        buffer := buffer[|buffer| - bufferSize..];
      }
      flushDue := |buffer| >= bufferSize;
    }

    /** Packs the buffer into chunks and empties it. */
    method Pack() returns (chunks: seq<seq<bv8>>, ghost groups: seq<seq<Metric>>)
      requires Valid()
      modifies this`buffer, this`submitted
      ensures Valid() && buffer == submitted == [] && chunks == JoinAll(groups)
      ensures old(buffer) == [] ==> chunks == []
      ensures old(buffer) != [] ==> IsPacked(mtu, groups, old(buffer))
      ensures |chunks| == |groups| && forall i :: 0 <= i < |chunks| ==> IsTextOf(chunks[i], groups[i])
    {
      hide Packing, IsPacked, Concat, JoinAll, Join, Weight, IsTextOf;
      chunks, groups := [], [];
      NothingJoined();
      ghost var ms := buffer;
      submitted := [];
      var currentChunk: seq<Metric> := [];
      var currentSize := 0;
      PackingStarts(mtu);
      while buffer != []
        invariant submitted == [] && |buffer| <= |ms| && buffer == ms[|ms| - |buffer|..]
        invariant Packing(mtu, groups, currentChunk, ms[..|ms| - |buffer|])
        invariant chunks == JoinAll(groups) && currentSize == Weight(currentChunk)
        invariant ms == [] ==> groups == [] && currentChunk == []
        invariant |buffer| < |ms| ==> currentChunk != []
        decreases |buffer|
      {
        var metric := buffer[0];
        ghost var packed := ms[..|ms| - |buffer|];
        assert ms[..|ms| - |buffer| + 1] == packed + [metric];
        buffer := buffer[1..];
        if currentSize + |metric| > mtu {
          PackingCloses(mtu, groups, currentChunk, packed, metric);
          JoinOneMore(groups, currentChunk);
          chunks := chunks + [Join(currentChunk)];
          groups := groups + [currentChunk];
          currentChunk := [];
          currentSize := 0;
        } else {
          PackingExtends(mtu, groups, currentChunk, packed, metric);
        }
        WeightOneMore(currentChunk, metric);
        assert [] + [metric] == [metric];
        currentChunk := currentChunk + [metric];
        currentSize := currentSize + |metric| + 1;
      }
      assert ms[..|ms|] == ms;
      if currentChunk != [] {
        if ms != [] {
          PackingEnds(mtu, groups, currentChunk, ms);
        }
        JoinOneMore(groups, currentChunk);
        chunks := chunks + [Join(currentChunk)];
        groups := groups + [currentChunk];
      }
      JoinAllAreTexts(groups);
    }

    /** Flushes the buffer.  `reachable` says how many datagrams the network still takes.  A send that
        fails abandons the remaining chunks; the drop counter, which only looks at the buffer, stays as
        it was. */
    method Flush(reachable: nat) returns (ok: bool, transmitted: seq<seq<bv8>>, ghost groups: seq<seq<Metric>>)
      requires Valid()
      modifies this
      ensures Valid() && buffer == submitted == [] && dropped == old(dropped)
      ensures old(buffer) == [] ==> ok && transmitted == []
      ensures old(buffer) != [] ==>
                && IsPacked(mtu, groups, old(buffer)) && transmitted <= JoinAll(groups)
                && (ok <==> transmitted == JoinAll(groups))
                && (forall i :: 0 <= i < |transmitted| ==> IsTextOf(transmitted[i], groups[i]))
                && |transmitted| == (if reachable < |groups| then reachable else |groups|)
      ensures sent == old(sent) + |transmitted| && errors == old(errors) + (if ok then 0 else 1)
    {
      hide IsPacked, IsTextOf;
      transmitted := [];
      if buffer == [] {
        return true, [], [];
      }
      var chunks;
      chunks, groups := Pack();
      var i := 0;
      while i < |chunks|
        invariant i <= |chunks| && i <= reachable && transmitted == chunks[..i]
        invariant Valid() && buffer == submitted == [] && dropped == old(dropped) && errors == old(errors)
        invariant sent == old(sent) + i
      {
        if i == reachable {
          errors := errors + 1;
          dropped := dropped + |buffer|;
          buffer := [];
          return false, transmitted, groups;
        }
        transmitted := transmitted + [chunks[i]];
        sent := sent + 1;
        i := i + 1;
      }
      return true, transmitted, groups;
    }
  }
}
