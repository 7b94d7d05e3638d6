/** The node-liveness bookkeeping of the meta server: which replica servers
    are alive or dead, the freeze rule that stops configuration updates when
    too few of them are alive, the flattened node-state map, the
    live_percentage control command and the seeding of the alive set when
    the service starts. */
module MetaService {
  import opened Common

  /** The address of a replica server (rpc_address), compared by value. */
  datatype RpcAddress = RpcAddress(ip: nat, port: nat)

  /** A node-state change handed to the server state (on_change_node_state). */
  datatype Notice = Notice(node: RpcAddress, alive: bool)

  /** The answer of live_percentage to a malformed argument. */
  const InvalidArguments: string := "ERR: invalid arguments"

  /** The smallest and largest values of int32_t. */
  const MinInt32: int := -0x8000_0000
  const MaxInt32: int := 0x7fff_ffff

  /** The nodes of a list, as a set. */
  function Listed(nodes: seq<RpcAddress>): set<RpcAddress> {
    set x | x in nodes
  }

  /** The alive and dead sets after the nodes of s are all marked alive or
      all marked dead: each marked node ends up on the chosen side only,
      every other node keeps its membership, and disjoint sets stay
      disjoint. */
  function Mark(alive: set<RpcAddress>, dead: set<RpcAddress>, s: set<RpcAddress>, isAlive: bool)
    : (r: (set<RpcAddress>, set<RpcAddress>))
    ensures isAlive ==> s <= r.0 && s !! r.1
    ensures !isAlive ==> s <= r.1 && s !! r.0
    ensures forall x :: x !in s ==> (x in r.0 <==> x in alive) && (x in r.1 <==> x in dead)
    ensures alive !! dead ==> r.0 !! r.1
  {
    if isAlive then (alive + s, dead - s) else (alive - s, dead + s)
  }

  /** The freeze rule over a number of alive and dead nodes: frozen when
      fewer than minLive nodes are alive, or when the alive nodes are less
      than threshold percent of all known nodes. */
  function Frozen(alive: nat, dead: nat, minLive: nat, threshold: int): bool {
    alive < minLive || alive * 100 < threshold * (alive + dead)
  }

  /** With a non-negative threshold, fewer alive and more known nodes never
      lift a freeze. */
  lemma FrozenMonotone(alive: nat, dead: nat, alive': nat, total': nat, minLive: nat, threshold: int)
    requires threshold >= 0 && alive' <= alive && total' >= alive + dead && alive' <= total'
    requires Frozen(alive, dead, minLive, threshold)
    ensures Frozen(alive', total' - alive', minLive, threshold)
  {
    if alive >= minLive {
      assert threshold * (alive + dead) <= threshold * total' by {
        MultiplyMonotone(threshold, alive + dead, total');
      }
    }
  }

  lemma MultiplyMonotone(k: nat, a: nat, b: nat)
    requires a <= b
    ensures k * a <= k * b
  {
  }

  /** The size of a union of disjoint sets. */
  lemma DisjointUnionSize(a: set<RpcAddress>, b: set<RpcAddress>)
    requires a !! b
    ensures |a + b| == |a| + |b|
  {
    assert a * b == {};
  }

  lemma SubsetSize(a: set<RpcAddress>, b: set<RpcAddress>)
    requires a <= b
    ensures |a| <= |b|
  {
    assert b == a + (b - a);
    DisjointUnionSize(a, b - a);
  }

  /** Marking nodes dead never lifts a freeze (with a non-negative
      threshold and disjoint alive and dead sets). */
  lemma MarkDeadKeepsFrozen(alive: set<RpcAddress>, dead: set<RpcAddress>, s: set<RpcAddress>, minLive: nat, threshold: int)
    requires alive !! dead && threshold >= 0
    requires Frozen(|alive|, |dead|, minLive, threshold)
    ensures Frozen(|Mark(alive, dead, s, false).0|, |Mark(alive, dead, s, false).1|, minLive, threshold)
  {
    var (a', d') := Mark(alive, dead, s, false);
    DisjointUnionSize(alive, dead);
    DisjointUnionSize(a', d');
    SubsetSize(a', alive);
    SubsetSize(alive + dead, a' + d');
    FrozenMonotone(|alive|, |dead|, |a'|, |a'| + |d'|, minLive, threshold);
  }

  /** set_node_state marks every node of the list: the alive and dead sets
      move as Mark says. */
  lemma MarkListed(alive: set<RpcAddress>, dead: set<RpcAddress>, nodes: seq<RpcAddress>, isAlive: bool)
    ensures forall k :: 0 <= k < |nodes| ==>
              (nodes[k] in Mark(alive, dead, Listed(nodes), isAlive).0 <==> isAlive) &&
              (nodes[k] in Mark(alive, dead, Listed(nodes), isAlive).1 <==> !isAlive)
  {
    forall k | 0 <= k < |nodes|
      ensures (nodes[k] in Mark(alive, dead, Listed(nodes), isAlive).0 <==> isAlive)
      ensures (nodes[k] in Mark(alive, dead, Listed(nodes), isAlive).1 <==> !isAlive)
    {
      assert nodes[k] in Listed(nodes);
    }
  }

  /** The map get_node_state leaves behind, starting from init: a dead node
      maps to false, an alive one to true (the dead pass comes second), and
      any other key keeps its old value. */
  ghost function NodeStates(alive: set<RpcAddress>, dead: set<RpcAddress>, init: map<RpcAddress, bool>)
    : map<RpcAddress, bool>
  {
    Overwrite(Overwrite(init, alive, true), dead, false)
  }

  /** m with every key of s mapped to b. */
  ghost function Overwrite(m: map<RpcAddress, bool>, s: set<RpcAddress>, b: bool): map<RpcAddress, bool> {
    map x | x in m.Keys + s :: if x in s then b else m[x]
  }

  lemma OverwriteNone(m: map<RpcAddress, bool>, b: bool)
    ensures Overwrite(m, {}, b) == m
  {
  }

  /** Taking x out of the unvisited part rest of s adds it to the visited part. */
  lemma MoveOne(s: set<RpcAddress>, rest: set<RpcAddress>, x: RpcAddress)
    requires rest <= s && x in rest
    ensures s - (rest - {x}) == (s - rest) + {x}
  {
  }

  lemma OverwriteOneMore(m: map<RpcAddress, bool>, s: set<RpcAddress>, x: RpcAddress, b: bool)
    ensures Overwrite(m, s + {x}, b) == Overwrite(m, s, b)[x := b]
  {
  }

  /** Over disjoint sets and an empty start, the node-state map has exactly
      the known nodes as keys and says true exactly for the alive ones. */
  lemma NodeStatesMeaning(alive: set<RpcAddress>, dead: set<RpcAddress>)
    requires alive !! dead
    ensures NodeStates(alive, dead, map[]).Keys == alive + dead
    ensures forall x :: x in alive + dead ==> (NodeStates(alive, dead, map[])[x] <==> x in alive)
  {
    var m1 := Overwrite(map[], alive, true);
    var m := Overwrite(m1, dead, false);
    assert m1.Keys == alive;
    assert m.Keys == alive + dead;
  }

  /** The value of a digit character. */
  function DigitValue(c: char): nat
    requires '0' <= c <= '9'
  {
    c as int - '0' as int
  }

  /** The character of a digit value. */
  function DigitChar(d: nat): (c: char)
    requires d < 10
    ensures '0' <= c <= '9' && DigitValue(c) == d
  {
    ('0' as int + d) as char
  }

  predicate AllDigits(s: string) {
    forall k :: 0 <= k < |s| ==> '0' <= s[k] <= '9'
  }

  /** The number a string of decimal digits denotes. */
  function DigitsValue(s: string): nat
    requires AllDigits(s)
  {
    if s == [] then 0 else DigitsValue(s[..|s| - 1]) * 10 + DigitValue(s[|s| - 1])
  }

  /** The decimal digits of a natural number, without leading zeros. */
  function NatToString(n: nat): (s: string)
    ensures |s| >= 1 && AllDigits(s)
  {
    if n < 10 then [DigitChar(n)] else NatToString(n / 10) + [DigitChar(n % 10)]
  }

  /** std::to_string of an int: decimal, with a minus sign when negative. */
  function IntToString(i: int): (s: string)
    ensures |s| >= 1 && (s[0] == '-' <==> i < 0)
    ensures i >= 0 ==> AllDigits(s)
    ensures i < 0 ==> AllDigits(s[1..])
  {
    if i < 0 then "-" + NatToString(-i) else NatToString(i)
  }

  /** buf2int32: the whole string must be an optional sign followed by at
      least one decimal digit, denoting a value within int32_t. */
  function ParseInt32(s: string): (r: Option<int>)
    ensures r.Some? ==> MinInt32 <= r.value <= MaxInt32
  {
    var neg := |s| >= 1 && s[0] == '-';
    var body := if |s| >= 1 && (s[0] == '-' || s[0] == '+') then s[1..] else s;
    if body == [] || !AllDigits(body) then None
    else
      var d: int := DigitsValue(body);
      var v := if neg then -d else d;
      if MinInt32 <= v <= MaxInt32 then Some(v) else None
  }

  lemma {:induction false} DigitsOfNat(n: nat)
    ensures DigitsValue(NatToString(n)) == n
  {
    var s := NatToString(n);
    if n >= 10 {
      DigitsOfNat(n / 10);
      assert s[..|s| - 1] == NatToString(n / 10);
    }
  }

  /** Printing an int32 and parsing it back gives the same value. */
  lemma ParsePrinted(i: int)
    requires MinInt32 <= i <= MaxInt32
    ensures ParseInt32(IntToString(i)) == Some(i)
  {
    if i < 0 {
      ParseNegative(i);
    } else {
      ParseNatural(i);
    }
  }

  lemma ParseNatural(n: nat)
    requires n <= MaxInt32
    ensures ParseInt32(NatToString(n)) == Some(n)
  {
    var d := NatToString(n);
    DigitsOfNat(n);
    assert '0' <= d[0] <= '9';
  }

  lemma ParseNegative(i: int)
    requires MinInt32 <= i < 0
    ensures ParseInt32(IntToString(i)) == Some(i)
  {
    var d := NatToString(-i);
    var s := "-" + d;
    assert IntToString(i) == s;
    DigitsOfNat(-i);
    assert s[0] == '-' && s[1..] == d;
  }

  /** The threshold and the answer after the live_percentage command with
      the arguments args, from the threshold t and the configured default. */
  function LivePercentageStep(t: int, default: int, args: seq<string>): (r: (int, string))
    ensures args == [] ==> r == (t, IntToString(t))
    ensures args != [] && args[0] == "DEFAULT" ==> r == (default, "OK")
    ensures (args != [] && args[0] != "DEFAULT" && (ParseInt32(args[0]).None? || ParseInt32(args[0]).value < 0))
              ==> r == (t, InvalidArguments)
    ensures (args != [] && args[0] != "DEFAULT" && ParseInt32(args[0]).Some? && ParseInt32(args[0]).value >= 0)
              ==> r == (ParseInt32(args[0]).value, "OK")
  {
    if args == [] then (t, IntToString(t))
    else if args[0] == "DEFAULT" then (default, "OK")
    else
      var v := ParseInt32(args[0]);
      if v.None? || v.value < 0 then (t, InvalidArguments) else (v.value, "OK")
  }

  /** Setting the threshold to a printed non-negative int32 and then querying
      it answers the same text. */
  lemma SetThenQuery(t: int, default: int, v: int)
    requires 0 <= v <= MaxInt32
    ensures LivePercentageStep(t, default, [IntToString(v)]) == (v, "OK")
    ensures LivePercentageStep(v, default, []).1 == IntToString(v)
  {
    ParsePrinted(v);
    var s := IntToString(v);
    assert s != "DEFAULT" by {
      assert AllDigits(s);
      assert s[0] != 'D';
    }
  }

  /** The command never makes a non-negative threshold negative, unless the
      configured default is. */
  lemma StepKeepsNonNegative(t: int, default: int, args: seq<string>)
    requires t >= 0 && default >= 0
    ensures LivePercentageStep(t, default, args).0 >= 0
  {
  }

  /** The alive and dead sets after start_service seeds the alive set from
      the nodes of the meta view: every viewed node not known dead becomes
      alive; the dead set is unchanged, disjointness is kept, and every
      viewed node ends up known. */
  function Seed(alive: set<RpcAddress>, dead: set<RpcAddress>, view: set<RpcAddress>)
    : (r: (set<RpcAddress>, set<RpcAddress>))
    ensures r.1 == dead && alive <= r.0
    ensures view <= r.0 + r.1
    ensures alive !! dead ==> r.0 !! r.1
    ensures forall x :: x in r.0 && x !in alive ==> x in view && x !in dead
  {
    (alive + (view - dead), dead)
  }

  /** The liveness state of meta_service. */
  class MetaServer {
    var aliveSet: set<RpcAddress>
    var deadSet: set<RpcAddress>
    /** Whether start_service has run (_started). */
    var started: bool
    /** _node_live_percentage_threshold_for_update. */
    var threshold: int
    /** The configured node_live_percentage_threshold_for_update. */
    const defaultThreshold: int
    /** The configured min_live_node_count_for_unfreeze. */
    const minLiveNodeCount: nat
    /** What _recent_disconnect_count has accumulated. */
    var recentDisconnects: nat
    /** The last value set on _unalive_nodes_count. */
    var unaliveNodes: nat

    ghost predicate Valid()
      reads this
    {
      aliveSet !! deadSet
    }

    constructor (defaultThreshold: int, minLiveNodeCount: nat)
      ensures Valid() && aliveSet == {} && deadSet == {} && !started
      ensures this.defaultThreshold == defaultThreshold && this.minLiveNodeCount == minLiveNodeCount
      ensures threshold == defaultThreshold && recentDisconnects == 0 && unaliveNodes == 0
    {
      this.defaultThreshold := defaultThreshold;
      this.minLiveNodeCount := minLiveNodeCount;
      threshold := defaultThreshold;
      aliveSet, deadSet := {}, {};
      started := false;
      recentDisconnects, unaliveNodes := 0, 0;
    }

    /** check_freeze. */
    function CheckFreeze(): (r: bool)
      reads this
      ensures r == Frozen(|aliveSet|, |deadSet|, minLiveNodeCount, threshold)
    {
      if |aliveSet| < minLiveNodeCount then true
      else
        var total := |aliveSet| + |deadSet|;
        |aliveSet| * 100 < threshold * total
    }

    /** set_node_state: marks each listed node alive or dead, adds the
        number of nodes to the disconnect count when they are dead, sets the
        unalive count to the size of the dead set and, once the service has
        started, hands one notice per listed node to the server state. */
    method SetNodeState(nodes: seq<RpcAddress>, isAlive: bool) returns (notices: seq<Notice>)
      requires Valid()
      modifies this`aliveSet, this`deadSet, this`recentDisconnects, this`unaliveNodes
      ensures Valid()
      ensures aliveSet == Mark(old(aliveSet), old(deadSet), Listed(nodes), isAlive).0
      ensures deadSet == Mark(old(aliveSet), old(deadSet), Listed(nodes), isAlive).1
      ensures recentDisconnects == old(recentDisconnects) + (if isAlive then 0 else |nodes|)
      ensures unaliveNodes == |deadSet|
      ensures !started ==> notices == []
      ensures started ==> |notices| == |nodes|
      ensures started ==> forall k :: 0 <= k < |nodes| ==> notices[k] == Notice(nodes[k], isAlive)
    {
      MarkNodes(nodes, isAlive);
      recentDisconnects := recentDisconnects + (if isAlive then 0 else |nodes|);
      unaliveNodes := |deadSet|;
      notices := [];
      if started {
        notices := NoticesFor(nodes, isAlive);
      }
    }

    /** The loop of set_node_state over the listed nodes. */
    method MarkNodes(nodes: seq<RpcAddress>, isAlive: bool)
      modifies this`aliveSet, this`deadSet
      ensures aliveSet == Mark(old(aliveSet), old(deadSet), Listed(nodes), isAlive).0
      ensures deadSet == Mark(old(aliveSet), old(deadSet), Listed(nodes), isAlive).1
    {
      ghost var a0, d0 := aliveSet, deadSet;
      var i := 0;
      assert Listed(nodes[..0]) == {};
      while i < |nodes|
        invariant 0 <= i <= |nodes|
        invariant aliveSet == Mark(a0, d0, Listed(nodes[..i]), isAlive).0
        invariant deadSet == Mark(a0, d0, Listed(nodes[..i]), isAlive).1
      {
        assert Listed(nodes[..i + 1]) == Listed(nodes[..i]) + {nodes[i]} by {
          assert nodes[..i + 1] == nodes[..i] + [nodes[i]];
        }
        if isAlive {
          aliveSet := aliveSet + {nodes[i]};
          deadSet := deadSet - {nodes[i]};
        } else {
          aliveSet := aliveSet - {nodes[i]};
          deadSet := deadSet + {nodes[i]};
        }
        i := i + 1;
      }
      assert nodes[..i] == nodes;
    }

    /** The notices set_node_state enqueues once started: one per listed
        node, in list order. */
    static method NoticesFor(nodes: seq<RpcAddress>, isAlive: bool) returns (notices: seq<Notice>)
      ensures |notices| == |nodes|
      ensures forall k :: 0 <= k < |nodes| ==> notices[k] == Notice(nodes[k], isAlive)
    {
      notices := [];
      var k := 0;
      while k < |nodes|
        invariant 0 <= k <= |nodes| && |notices| == k
        invariant forall p :: 0 <= p < k ==> notices[p] == Notice(nodes[p], isAlive)
      {
        notices := notices + [Notice(nodes[k], isAlive)];
        k := k + 1;
      }
    }

    /** get_node_state: writes every alive node as true into the map, then
        every dead node as false. */
    method GetNodeState(allNodes: map<RpcAddress, bool>) returns (m: map<RpcAddress, bool>)
      ensures m == NodeStates(aliveSet, deadSet, allNodes)
    {
      m := WriteAll(allNodes, aliveSet, true);
      m := WriteAll(m, deadSet, false);
    }

    /** One pass of get_node_state: sets every node of s to b in m. */
    static method WriteAll(m0: map<RpcAddress, bool>, s: set<RpcAddress>, b: bool) returns (m: map<RpcAddress, bool>)
      ensures m == Overwrite(m0, s, b)
    {
      m := m0;
      var rest := s;
      ghost var done: set<RpcAddress> := {};
      OverwriteNone(m0, b);
      assert done == s - rest;
      while rest != {}
        invariant rest <= s && done == s - rest
        invariant m == Overwrite(m0, done, b)
        decreases |rest|
      {
        var x :| x in rest;
        OverwriteOneMore(m0, done, x, b);
        MoveOne(s, rest, x);
        m := m[x := b];
        rest := rest - {x};
        done := done + {x};
      }
      assert done == s;
    }

    /** The live_percentage command: with no argument it answers the
        threshold; "DEFAULT" restores the configured threshold; a
        non-negative int32 becomes the threshold; anything else is refused
        and changes nothing. */
    method LivePercentage(args: seq<string>) returns (result: string)
      modifies this`threshold
      ensures (threshold, result) == LivePercentageStep(old(threshold), defaultThreshold, args)
    {
      result := "OK";
      if args == [] {
        result := IntToString(threshold);
      } else {
        if args[0] == "DEFAULT" {
          threshold := defaultThreshold;
        } else {
          var v := ParseInt32(args[0]);
          if v.None? || v.value < 0 {
            result := InvalidArguments;
          } else {
            threshold := v.value;
          }
        }
      }
    }

    /** The seeding at the start of start_service: every node of the meta
        view that is not dead is added to the alive set; then the service
        counts as started. */
    method StartService(view: set<RpcAddress>)
      requires Valid()
      modifies this`aliveSet, this`started
      ensures Valid() && started
      ensures aliveSet == Seed(old(aliveSet), deadSet, view).0
    {
      ghost var a0 := aliveSet;
      var rest := view;
      ghost var done: set<RpcAddress> := {};
      assert done == view - rest;
      while rest != {}
        modifies this`aliveSet
        invariant rest <= view && done == view - rest
        invariant aliveSet == a0 + (done - deadSet)
        decreases |rest|
      {
        var x :| x in rest;
        MoveOne(view, rest, x);
        if x !in deadSet {
          aliveSet := aliveSet + {x};
        }
        rest := rest - {x};
        done := done + {x};
      }
      assert done == view;
      started := true;
    }
  }
}
