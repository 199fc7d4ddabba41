/** Attaching the egress program to the selected interfaces
    (cmd/killswitch/egress.go:26-120). */
module Links {
  import opened Words
  import opened Effective

  /** An attached interface: the link that was opened for it and its description. */
  datatype Attached = Attached(link: nat, info: Interface)

  ghost function LinksOf(a: map<u32, Attached>): map<u32, nat> {
    map i | i in a :: a[i].link
  }

  function Indexes(selected: seq<Interface>): set<u32> {
    set k | 0 <= k < |selected| :: selected[k].index
  }

  /** Links already live for `kept` interfaces have not changed at any moment. */
  ghost predicate NeverInterrupted(moments: seq<map<u32, nat>>, from: nat, before: map<u32, nat>, kept: set<u32>) {
    forall k, i :: from <= k < |moments| && i in kept && i in before ==> i in moments[k] && moments[k][i] == before[i]
  }

  ghost predicate SameLinks(a: map<u32, Attached>, b: map<u32, Attached>) {
    forall i :: i in a ==> i in b && b[i].link == a[i].link
  }

  lemma StillThere(moments: seq<map<u32, nat>>, m: map<u32, nat>, from: nat, before: map<u32, nat>, kept: set<u32>)
    requires NeverInterrupted(moments, from, before, kept)
    requires forall i :: i in kept && i in before ==> i in m && m[i] == before[i]
    ensures NeverInterrupted(moments + [m], from, before, kept)
  {
  }

  lemma NeverInterruptedLess(moments: seq<map<u32, nat>>, from: nat, before: map<u32, nat>, kept: set<u32>,
                             fewer: set<u32>)
    requires NeverInterrupted(moments, from, before, kept) && fewer <= kept
    ensures NeverInterrupted(moments, from, before, fewer)
  {
  }

  ghost predicate Restricted(a: map<u32, Attached>, b: map<u32, Attached>, todo: set<u32>, keep: set<u32>) {
    && (forall i :: i in b <==> i in a && (i in todo || i in keep))
    && (forall i :: i in b ==> b[i] == a[i])
  }

  ghost predicate SomeGone(a: map<u32, Attached>, todo: set<u32>, desired: set<u32>) {
    exists i :: i in a && i !in todo && i !in desired
  }

  lemma SomeGoneStep(a: map<u32, Attached>, todo: set<u32>, desired: set<u32>, i: u32)
    requires i in todo && i in a
    ensures SomeGone(a, todo - {i}, desired) <==> SomeGone(a, todo, desired) || i !in desired
  {
  }

  lemma RestrictedKeys(a: map<u32, Attached>, b: map<u32, Attached>, desired: set<u32>)
    requires Restricted(a, b, {}, desired)
    ensures b.Keys == a.Keys * desired
    ensures SomeGone(a, {}, desired) <==> !(a.Keys <= desired)
  {
  }

  ghost predicate Chosen(selected: seq<Interface>, n: nat, i: u32) {
    exists k :: 0 <= k < n && k < |selected| && selected[k].index == i
  }

  /** After `n` selected interfaces: `succeeded` were newly attached, `failing` were
      not, everything attached before is still there under its own link. */
  ghost predicate Progress(selected: seq<Interface>, n: nat, a0: map<u32, Attached>, a: map<u32, Attached>,
                           succeeded: set<u32>, failing: set<u32>) {
    && SameLinks(a0, a)
    && (forall i :: i in a <==> i in a0 || i in succeeded)
    && (forall i :: i in succeeded ==> i !in a0 && Chosen(selected, n, i))
    && (forall i :: i in failing ==> Chosen(selected, n, i))
    && (forall k :: 0 <= k < n && k < |selected| ==> selected[k].index in a || selected[k].index in failing)
    && (DistinctIndexes(selected) ==> forall i :: i in failing ==> i !in a)
  }

  lemma ProgressStep(selected: seq<Interface>, n: nat, a0: map<u32, Attached>, a: map<u32, Attached>,
                     b: map<u32, Attached>,
                     succeeded: set<u32>, failing: set<u32>, ok: bool, isNew: bool)
    requires n < |selected| && Progress(selected, n, a0, a, succeeded, failing) && SameLinks(a, b)
    requires forall i :: i in b <==> i in a || (ok && i == selected[n].index)
    requires (isNew <==> ok && selected[n].index !in a) && (ok || selected[n].index !in b)
    ensures Progress(selected, n + 1, a0, b,
                     if ok && isNew then succeeded + {selected[n].index} else succeeded,
                     if ok then failing else failing + {selected[n].index})
  {
  }

  lemma ProgressKeys(selected: seq<Interface>, a: map<u32, Attached>, b: map<u32, Attached>, succeeded: set<u32>,
                     failing: set<u32>)
    requires Progress(selected, |selected|, a, b, succeeded, failing)
    ensures b.Keys == a.Keys + succeeded
    ensures succeeded <= Indexes(selected) && succeeded !! a.Keys
    ensures DistinctIndexes(selected) ==> (failing != {} <==> !(Indexes(selected) <= b.Keys))
  {
  }

  class EgressManager {
    var attached: map<u32, Attached>

    /** The identity of the next link the kernel hands out; every link ever opened
        is numbered below it. */
    var openCount: nat

    /** How often each link was closed, which interface each live link serves, and
        the live links after every change. */
    ghost var closed: multiset<nat>
    ghost var serves: map<nat, u32>
    ghost var moments: seq<map<u32, nat>>

    /** Each opened link is live under exactly one interface or was closed exactly
        once, never both; no interface has two live links. */
    ghost predicate Valid()
      reads this
    {
      && (forall i :: i in attached ==> attached[i].link in serves && serves[attached[i].link] == i)
      && (forall l :: l in serves ==> serves[l] in attached && attached[serves[l]].link == l)
      && (forall l: nat :: closed[l] == if l < openCount && l !in serves then 1 else 0)
      && (forall l :: l in serves ==> l < openCount)
    }

    constructor ()
      ensures Valid() && attached == map[] && openCount == 0
    {
      attached := map[];
      openCount, closed, serves, moments := 0, multiset{}, map[], [];
    }

    /** `link.Close` and the deletion that follows it. A failed close is only logged
        and the link forgotten, so it counts as closed here. */
    method Detach(i: u32)
      requires Valid() && i in attached
      modifies this
      ensures Valid() && attached == old(attached) - {i} && openCount == old(openCount)
      ensures closed == old(closed) + multiset{old(attached)[i].link}
      ensures moments == old(moments) + [LinksOf(attached)]
    {
      ghost var l := attached[i].link;
      closed := closed + multiset{l};
      serves := serves - {l};
      attached := attached - {i};
      moments := moments + [LinksOf(attached)];
    }

    /** `link.AttachTCX`, which may fail and then opens nothing. */
    method Attach(iface: Interface) returns (ok: bool)
      requires Valid() && iface.index !in attached
      modifies this
      ensures Valid() && closed == old(closed)
      ensures ok ==> attached == old(attached)[iface.index := Attached(old(openCount), iface)]
      ensures ok ==> openCount == old(openCount) + 1
      ensures ok ==> moments == old(moments) + [LinksOf(attached)]
      ensures !ok ==> attached == old(attached) && openCount == old(openCount) && moments == old(moments)
    {
      ok := *;
      if ok {
        attached := attached[iface.index := Attached(openCount, iface)];
        serves := serves[openCount := iface.index];
        openCount := openCount + 1;
        moments := moments + [LinksOf(attached)];
      }
    }

    /** The description of an interface that stays attached is refreshed. */
    method Refresh(iface: Interface)
      requires Valid() && iface.index in attached
      modifies this`attached
      ensures Valid() && attached == old(attached)[iface.index := old(attached)[iface.index].(info := iface)]
    {
      attached := attached[iface.index := attached[iface.index].(info := iface)];
    }

    /** First loop of `reconcile`: detach what is no longer selected. */
    method DetachUnselected(desired: set<u32>) returns (changed: bool)
      requires Valid()
      modifies this
      ensures Valid() && Restricted(old(attached), attached, {}, desired)
      ensures old(moments) <= moments && NeverInterrupted(moments, |old(moments)|, LinksOf(old(attached)), desired)
      ensures changed <==> SomeGone(old(attached), {}, desired)
    {
      changed := false;
      ghost var a0, n0 := attached, |moments|;
      var todo := attached.Keys;
      while todo != {}
        invariant Valid()
        invariant forall i :: i in todo ==> i in a0
        invariant Restricted(a0, attached, todo, desired)
        invariant n0 <= |moments| && old(moments) <= moments && NeverInterrupted(moments, n0, LinksOf(a0), desired)
        invariant changed <==> SomeGone(a0, todo, desired)
        decreases |todo|
      {
        var i :| i in todo;
        SomeGoneStep(a0, todo, desired, i);
        todo := todo - {i};
        if i !in desired {
          DetachOne(i, a0, n0, todo, desired);
          changed := true;
        }
      }
    }

    /** One detachment among several. */
    method DetachOne(i: u32, ghost a0: map<u32, Attached>, ghost n0: nat, ghost todo: set<u32>, ghost desired: set<u32>)
      requires Valid() && i in a0 && i !in desired && i !in todo && n0 <= |moments|
      requires Restricted(a0, attached, todo + {i}, desired)
      requires NeverInterrupted(moments, n0, LinksOf(a0), desired)
      modifies this
      ensures Valid() && Restricted(a0, attached, todo, desired)
      ensures old(moments) <= moments && NeverInterrupted(moments, n0, LinksOf(a0), desired)
    {
      Detach(i);
      StillThere(old(moments), LinksOf(attached), n0, LinksOf(a0), desired);
    }

    /** One selected interface: keep its link or try to attach. */
    method KeepOrAttach(iface: Interface) returns (ok: bool, isNew: bool)
      requires Valid()
      modifies this
      ensures Valid() && closed == old(closed) && SameLinks(old(attached), attached)
      ensures attached.Keys == old(attached).Keys + if ok then {iface.index} else {}
      ensures isNew <==> ok && iface.index !in old(attached)
      ensures !ok ==> iface.index !in attached
      ensures moments == old(moments) || moments == old(moments) + [LinksOf(attached)]
    {
      if iface.index in attached {
        Refresh(iface);
        return true, false;
      }
      ok := Attach(iface);
      isNew := ok;
    }

    /** Second loop of `reconcile`: keep or attach every selected interface. */
    method AttachSelected(selected: seq<Interface>)
      returns (changed: bool, failed: bool, ghost succeeded: set<u32>, ghost failing: set<u32>)
      requires Valid()
      modifies this
      ensures Valid() && closed == old(closed)
      ensures Progress(selected, |selected|, old(attached), attached, succeeded, failing)
      ensures old(moments) <= moments &&
              NeverInterrupted(moments, |old(moments)|, LinksOf(old(attached)), old(attached).Keys)
      ensures changed <==> succeeded != {}
      ensures failed <==> failing != {}
    {
      changed, failed, succeeded, failing := false, false, {}, {};
      ghost var a0, n0 := attached, |moments|;
      for n := 0 to |selected|
        invariant Valid() && closed == old(closed)
        invariant Progress(selected, n, a0, attached, succeeded, failing)
        invariant n0 <= |moments| && old(moments) <= moments && NeverInterrupted(moments, n0, LinksOf(a0), a0.Keys)
        invariant changed <==> succeeded != {}
        invariant failed <==> failing != {}
      {
        var ok, isNew := AttachOne(selected, n, a0, n0, succeeded, failing);
        if !ok {
          failing := failing + {selected[n].index};
          failed := true;
        } else if isNew {
          succeeded := succeeded + {selected[n].index};
          changed := true;
        }
      }
    }

    /** One attachment among several. */
    method AttachOne(selected: seq<Interface>, n: nat, ghost a0: map<u32, Attached>, ghost n0: nat,
                     ghost succeeded: set<u32>, ghost failing: set<u32>)
      returns (ok: bool, isNew: bool)
      requires Valid() && n < |selected| && n0 <= |moments|
      requires Progress(selected, n, a0, attached, succeeded, failing)
      requires NeverInterrupted(moments, n0, LinksOf(a0), a0.Keys)
      modifies this
      ensures Valid() && closed == old(closed)
      ensures Progress(selected, n + 1, a0, attached,
                       if ok && isNew then succeeded + {selected[n].index} else succeeded,
                       if ok then failing else failing + {selected[n].index})
      ensures old(moments) <= moments && NeverInterrupted(moments, n0, LinksOf(a0), a0.Keys)
    {
      ok, isNew := KeepOrAttach(selected[n]);
      ProgressStep(selected, n, a0, old(attached), attached, succeeded, failing, ok, isNew);
      StillThere(old(moments), LinksOf(attached), n0, LinksOf(a0), a0.Keys);
    }

    /** `reconcile`. The attached set becomes the old set restricted to the selection
        plus the successful attaches; interfaces in both keep their link throughout. */
    method Reconcile(selected: seq<Interface>, strict: bool)
      returns (changed: bool, err: bool, ghost succeeded: set<u32>)
      requires Valid()
      modifies this
      ensures Valid()
      ensures succeeded <= Indexes(selected) - old(attached).Keys
      ensures attached.Keys == old(attached).Keys * Indexes(selected) + succeeded
      ensures forall i :: i in old(attached) && i in Indexes(selected) ==>
                i in attached && attached[i].link == old(attached)[i].link
      ensures old(moments) <= moments
      ensures NeverInterrupted(moments, |old(moments)|, LinksOf(old(attached)), old(attached).Keys * Indexes(selected))
      ensures changed <==> attached.Keys != old(attached).Keys
      ensures DistinctIndexes(selected) ==> (err <==> strict && !(Indexes(selected) <= attached.Keys))
    {
      var desired := Indexes(selected);
      ghost var a0 := attached;
      var detached := DetachUnselected(desired);
      ghost var a1, earlier := attached, moments;
      var added, failed;
      ghost var failing;
      added, failed, succeeded, failing := AttachSelected(selected);
      RestrictedKeys(a0, a1, desired);
      NeverInterruptedLess(earlier, |old(moments)|, LinksOf(a0), desired, a1.Keys);
      JoinMoments(earlier, moments, |old(moments)|, LinksOf(a0), LinksOf(a1), a1.Keys);
      ProgressKeys(selected, a1, attached, succeeded, failing);
      KeysUnchanged(a0.Keys, desired, succeeded);
      changed := detached || added;
      err := strict && failed;
    }

    /** `close`: every live link is closed. */
    method Close()
      requires Valid()
      modifies this
      ensures Valid() && attached == map[] && openCount == old(openCount)
      ensures forall l: nat :: closed[l] == if l < openCount then 1 else 0
    {
      var todo := attached.Keys;
      while todo != {}
        invariant Valid() && todo == attached.Keys && openCount == old(openCount)
        decreases |todo|
      {
        var i :| i in todo;
        Detach(i);
        todo := todo - {i};
      }
    }
  }

  lemma KeysUnchanged(was: set<u32>, desired: set<u32>, succeeded: set<u32>)
    requires succeeded !! was
    ensures was * desired + succeeded == was <==> was <= desired && succeeded == {}
  {
  }

  lemma JoinMoments(earlier: seq<map<u32, nat>>, moments: seq<map<u32, nat>>, from: nat, before: map<u32, nat>,
                    middle: map<u32, nat>, kept: set<u32>)
    requires earlier <= moments && from <= |earlier|
    requires NeverInterrupted(earlier, from, before, kept) && NeverInterrupted(moments, |earlier|, middle, kept)
    requires forall i :: i in kept ==> i in before && i in middle && middle[i] == before[i]
    ensures NeverInterrupted(moments, from, before, kept)
  {
  }
}
