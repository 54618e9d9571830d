/** Counting the copies of a broadcast: targets are reached directly or by a relay, and
    each relay is used once. */
module Broadcasts {
  import opened Common

  datatype Target<T> = Target(ip: T, relay: Option<T>)

  function Directs<T>(targets: seq<Target<T>>): set<T> {
    set x | x in targets && x.relay.None? :: x.ip
  }

  function Relays<T>(targets: seq<Target<T>>): set<T> {
    set x | x in targets && x.relay.Some? :: x.relay.value
  }

  /** One copy for each able direct target and one for each able relay. */
  ghost predicate CopiesMatch<T>(targets: seq<Target<T>>, able: set<T>, copies: seq<T>) {
    multiset(copies) == multiset(Directs(targets) * able) + multiset(Relays(targets) * able)
  }

  lemma Appended<T>(targets: seq<Target<T>>, x: Target<T>)
    ensures Directs(targets + [x]) == if x.relay.None? then Directs(targets) + {x.ip} else Directs(targets)
    ensures Relays(targets + [x]) == if x.relay.Some? then Relays(targets) + {x.relay.value} else Relays(targets)
  {
    assert forall y :: y in targets + [x] <==> y in targets || y == x;
  }

  lemma GrownByOne<T>(s: set<T>, able: set<T>, x: T)
    requires x !in s
    ensures multiset((s + {x}) * able) == multiset(s * able) + if x in able then multiset{x} else multiset{}
  {
    assert (s + {x}) * able == if x in able then s * able + {x} else s * able;
  }

  /** Serving one more target keeps the count right. */
  lemma Served<T>(targets: seq<Target<T>>, able: set<T>, copies: seq<T>, x: Target<T>)
    requires forall y :: y in targets ==> y.ip != x.ip
    requires CopiesMatch(targets, able, copies)
    ensures var receiver := if x.relay.Some? then x.relay.value else x.ip;
            CopiesMatch(targets + [x], able,
                        if (x.relay.None? || receiver !in Relays(targets)) && receiver in able
                        then copies + [receiver] else copies)
  {
    Appended(targets, x);
    if x.relay.None? {
      assert x.ip !in Directs(targets);
      GrownByOne(Directs(targets), able, x.ip);
    } else if x.relay.value !in Relays(targets) {
      GrownByOne(Relays(targets), able, x.relay.value);
    } else {
      assert Relays(targets) + {x.relay.value} == Relays(targets);
    }
  }

  ghost predicate DistinctTargets<T>(targets: seq<Target<T>>) {
    forall i, j :: 0 <= i < j < |targets| ==> targets[i].ip != targets[j].ip
  }

  function Receiver<T>(x: Target<T>): T {
    if x.relay.Some? then x.relay.value else x.ip
  }

  /** Whom the copies go to when the targets are served in order. */
  ghost function CopiesFor<T>(targets: seq<Target<T>>, able: set<T>): seq<T> {
    if targets == [] then []
    else
      var init, x := targets[..|targets| - 1], targets[|targets| - 1];
      if (x.relay.None? || Receiver(x) !in Relays(init)) && Receiver(x) in able
      then CopiesFor(init, able) + [Receiver(x)] else CopiesFor(init, able)
  }

  lemma CopiesForLonger<T>(targets: seq<Target<T>>, x: Target<T>, able: set<T>)
    ensures CopiesFor(targets + [x], able) ==
            if (x.relay.None? || x.relay.value !in Relays(targets)) && Receiver(x) in able
            then CopiesFor(targets, able) + [Receiver(x)] else CopiesFor(targets, able)
  {
    assert (targets + [x])[..|targets|] == targets;
  }

  lemma {:induction false} CopiesForMatch<T>(targets: seq<Target<T>>, able: set<T>)
    requires DistinctTargets(targets)
    ensures CopiesMatch(targets, able, CopiesFor(targets, able))
  {
    if targets != [] {
      var init, x := targets[..|targets| - 1], targets[|targets| - 1];
      CopiesForMatch(init, able);
      Served(init, able, CopiesFor(init, able), x);
      assert targets == init + [x];
    }
  }
}
