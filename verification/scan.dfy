/** The line-by-line scan both body analyzers run: every line number of a
    range is looked at once, in ascending order, and the wanted ones each
    produce one issue. The facts here hold for any choice of wanted lines
    and any issue per line. */
module Scan {
  import opened Issues
  import Seqs

  /** Some issue sits at line `n`. */
  ghost predicate HasLine(issues: seq<Issue>, n: nat) {
    exists k :: 0 <= k < |issues| && issues[k].line == n
  }

  lemma HasLineAppend(a: seq<Issue>, b: seq<Issue>, n: nat)
    ensures HasLine(a, n) ==> HasLine(a + b, n)
    ensures HasLine(b, n) ==> HasLine(a + b, n)
  {
    if HasLine(a, n) {
      var k :| 0 <= k < |a| && a[k].line == n;
      assert (a + b)[k] == a[k];
    }
    if HasLine(b, n) {
      var k :| 0 <= k < |b| && b[k].line == n;
      assert (a + b)[|a| + k] == b[k];
    }
  }

  /** What a scan for the line numbers satisfying `wanted` has collected
      once the numbers from `start` up to `n` are done: exactly the wanted
      ones, in ascending order. */
  ghost predicate Collected(ns: seq<nat>, wanted: (nat, nat, nat) -> bool, b: Block, n: nat) {
    && (forall k :: 0 <= k < |ns| ==> wanted(b.start, b.end, ns[k]) && b.start <= ns[k] < n)
    && (forall m: nat :: b.start <= m < n && wanted(b.start, b.end, m) ==> m in ns)
    && (forall j, k :: 0 <= j < k < |ns| ==> ns[j] < ns[k])
  }

  /** Building one issue per line number collected over a whole body gives
      exactly that body's issues, in ascending order. */
  lemma MapCollected(ns: seq<nat>, wanted: (nat, nat, nat) -> bool, make: nat -> Issue, b: Block)
    requires Collected(ns, wanted, b, b.end)
    requires forall m: nat :: wanted(b.start, b.end, m) ==> b.start <= m < b.end
    requires forall m :: make(m).line == m
    ensures Exact(Seqs.Map(ns, make), wanted, make, b)
    ensures var issues := Seqs.Map(ns, make);
            forall j, k :: 0 <= j < k < |issues| ==> issues[j].line < issues[k].line
  {
    var issues := Seqs.Map(ns, make);
    forall m: nat | wanted(b.start, b.end, m)
      ensures HasLine(issues, m)
    {
      var k :| 0 <= k < |ns| && ns[k] == m;
      assert issues[k].line == m;
    }
  }

  /** The 1-based first and last line of one body, as its span reports
      them. */
  datatype Block = Block(start: nat, end: nat)

  /** One body's check produced exactly the lines of that body `wanted`
      picks, each as `make` builds it. */
  ghost predicate Exact(found: seq<Issue>, wanted: (nat, nat, nat) -> bool, make: nat -> Issue, b: Block) {
    && (forall k :: 0 <= k < |found| ==> found[k] == make(found[k].line) && wanted(b.start, b.end, found[k].line))
    && (forall n: nat :: wanted(b.start, b.end, n) ==> HasLine(found, n))
  }

  /** Every issue is built by `make` for a line some body picks. */
  ghost predicate Sound(issues: seq<Issue>, blocks: seq<Block>, wanted: (nat, nat, nat) -> bool, make: nat -> Issue) {
    forall k :: 0 <= k < |issues| ==>
      issues[k] == make(issues[k].line) && exists b :: b in blocks && wanted(b.start, b.end, issues[k].line)
  }

  /** Every line some body picks has an issue. */
  ghost predicate Complete(issues: seq<Issue>, blocks: seq<Block>, wanted: (nat, nat, nat) -> bool) {
    forall b, n: nat :: b in blocks && wanted(b.start, b.end, n) ==> HasLine(issues, n)
  }

  /** Adding one more body's issues keeps the collection sound and
      complete. */
  lemma Extend(before: seq<Issue>, found: seq<Issue>, blocks: seq<Block>, i: nat, wanted: (nat, nat, nat) -> bool, make: nat -> Issue)
    requires i < |blocks|
    requires Sound(before, blocks[..i], wanted, make) && Complete(before, blocks[..i], wanted)
    requires Exact(found, wanted, make, blocks[i])
    ensures Sound(before + found, blocks[..i + 1], wanted, make) && Complete(before + found, blocks[..i + 1], wanted)
  {
    var all := before + found;
    var bs := blocks[..i + 1];
    assert forall b :: b in bs <==> b in blocks[..i] || b == blocks[i];
    forall k | 0 <= k < |all|
      ensures all[k] == make(all[k].line) && exists b :: b in bs && wanted(b.start, b.end, all[k].line)
    {
      if k < |before| {
        assert all[k] == before[k];
        var b :| b in blocks[..i] && wanted(b.start, b.end, before[k].line);
        assert b in bs;
      } else {
        assert all[k] == found[k - |before|];
        assert blocks[i] in bs;
      }
    }
    forall b, n: nat | b in bs && wanted(b.start, b.end, n)
      ensures HasLine(all, n)
    {
      HasLineAppend(before, found, n);
    }
  }

  /** The line numbers of body `b` below `n` that `wanted` picks, in
      ascending order: what the scan of `b` has taken once it reaches `n`. */
  function WantedBelow(wanted: (nat, nat, nat) -> bool, b: Block, n: nat): (r: seq<nat>)
    ensures forall k :: 0 <= k < |r| ==> b.start <= r[k] < n && wanted(b.start, b.end, r[k])
    ensures forall m: nat :: b.start <= m < n && wanted(b.start, b.end, m) ==> m in r
    ensures forall j, k :: 0 <= j < k < |r| ==> r[j] < r[k]
    decreases n
  {
    if n <= b.start then []
    else WantedBelow(wanted, b, n - 1) + (if wanted(b.start, b.end, n - 1) then [n - 1] else [])
  }

  /** One body's issues as its check makes them: one per wanted line of
      its range, in ascending line order. */
  function BodyIssues(wanted: (nat, nat, nat) -> bool, make: nat -> Issue, b: Block): seq<Issue> {
    Seqs.Map(WantedBelow(wanted, b, b.end), make)
  }

  /** The issues of a whole file: every body's issues, body after body in
      the order the bodies are visited. A body visited twice contributes
      its issues twice. */
  function ScanAll(blocks: seq<Block>, wanted: (nat, nat, nat) -> bool, make: nat -> Issue): seq<Issue>
    decreases |blocks|
  {
    if blocks == [] then []
    else ScanAll(blocks[..|blocks| - 1], wanted, make) + BodyIssues(wanted, make, blocks[|blocks| - 1])
  }

  /** Scanning two runs of bodies one after the other concatenates their
      issues, so the issue count is additive over the bodies, repeated
      bodies included. */
  lemma {:induction false} ScanAllAppend(a: seq<Block>, b: seq<Block>, wanted: (nat, nat, nat) -> bool, make: nat -> Issue)
    ensures ScanAll(a + b, wanted, make) == ScanAll(a, wanted, make) + ScanAll(b, wanted, make)
    decreases |b|
  {
    if b != [] {
      assert (a + b)[..|a + b| - 1] == a + b[..|b| - 1];
      ScanAllAppend(a, b[..|b| - 1], wanted, make);
    } else {
      assert a + b == a;
    }
  }

  /** A body's issues, as `BodyIssues` builds them, are exactly the body's
      wanted lines, in ascending line order. */
  lemma BodyIssuesExact(wanted: (nat, nat, nat) -> bool, make: nat -> Issue, b: Block)
    requires forall m: nat :: wanted(b.start, b.end, m) ==> b.start <= m < b.end
    requires forall m :: make(m).line == m
    ensures Exact(BodyIssues(wanted, make, b), wanted, make, b)
    ensures var issues := BodyIssues(wanted, make, b);
            forall j, k :: 0 <= j < k < |issues| ==> issues[j].line < issues[k].line
  {
    MapCollected(WantedBelow(wanted, b, b.end), wanted, make, b);
  }
}
