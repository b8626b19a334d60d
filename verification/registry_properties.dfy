/**
  Properties of the process registry that relate several calls, or pin down
  the behaviour the indexes show when they disagree with each other.
 */
module RegistryProperties {
  import opened Optional
  import opened PyList
  import opened ProcessRegistry

  /*
   * Registration
   */

  /**
    Registering a parent gives it a fresh record with an empty child list, even
    when it had children, and leaves `parentToChildren` and every other record alone.
   */
  lemma RegisterParentResets(r: Registry, pid: int, port: int)
    ensures var r' := Register(r, pid, port, None);
      && pid in r'.parents && r'.parents[pid] == ParentEntry(port, [])
      && r'.parents.Keys == r.parents.Keys + {pid}
      && (forall q :: q in r.parents && q != pid ==> r'.parents[q] == r.parents[q])
      && r'.parentToChildren == r.parentToChildren
      && r'.children == r.children
      && GetChildrenByParent(r', pid) == GetChildrenByParent(r, pid)
  {
  }

  /**
    Registering a child records its port and parent, and appends it at the end
    of both the parent's own list and `parentToChildren`, whatever was there.
   */
  lemma RegisterChildAppends(r: Registry, pid: int, port: int, parentPid: int)
    ensures var r' := Register(r, pid, port, Some(parentPid));
      && pid in r'.children && r'.children[pid] == ChildEntry(port, parentPid)
      && r'.children.Keys == r.children.Keys + {pid}
      && (forall c :: c in r.children && c != pid ==> r'.children[c] == r.children[c])
      && GetChildrenByParent(r', parentPid) == GetChildrenByParent(r, parentPid) + [pid]
      && parentPid in r'.parents
      && (parentPid in r.parents ==>
            r'.parents[parentPid] == r.parents[parentPid].(children := r.parents[parentPid].children + [pid]))
      && r'.parents.Keys == r.parents.Keys + {parentPid}
      && (forall q :: q in r.parents && q != parentPid ==> r'.parents[q] == r.parents[q])
      && r'.parentToChildren.Keys == r.parentToChildren.Keys + {parentPid}
      && (forall q :: q in r.parentToChildren && q != parentPid ==>
            r'.parentToChildren[q] == r.parentToChildren[q])
  {
  }

  /** A child that registers twice under the same parent is listed twice. */
  lemma RegisterChildTwiceDuplicates(r: Registry, pid: int, port: int, parentPid: int)
    ensures var r' := Register(Register(r, pid, port, Some(parentPid)), pid, port, Some(parentPid));
      GetChildrenByParent(r', parentPid) == GetChildrenByParent(r, parentPid) + [pid, pid]
  {
    var r1 := Register(r, pid, port, Some(parentPid));
    RegisterChildAppends(r, pid, port, parentPid);
    RegisterChildAppends(r1, pid, port, parentPid);
    assert GetChildrenByParent(r, parentPid) + [pid] + [pid] == GetChildrenByParent(r, parentPid) + [pid, pid];
  }

  /**
    A child that arrives before its parent creates a placeholder parent record,
    whose port, `-1`, is then what a lookup of the parent's port answers.
   */
  lemma PlaceholderParentPort(r: Registry, pid: int, port: int, parentPid: int)
    requires parentPid !in r.parents
    ensures var r' := Register(r, pid, port, Some(parentPid));
      && r'.parents[parentPid] == ParentEntry(PlaceholderPort, [pid])
      && GetPortByPid(r', parentPid) == Some(-1)
  {
  }

  /** The later registration of the real parent replaces the placeholder port. */
  lemma ParentArrivalReplacesPlaceholder(r: Registry, child: int, childPort: int, parentPid: int, parentPort: int)
    requires parentPid !in r.parents
    ensures var r' := Register(Register(r, child, childPort, Some(parentPid)), parentPid, parentPort, None);
      && GetPortByPid(r', parentPid) == Some(parentPort)
      && r'.parents[parentPid].children == []
      && GetChildrenByParent(r', parentPid) == GetChildrenByParent(r, parentPid) + [child]
  {
    var r1 := Register(r, child, childPort, Some(parentPid));
    RegisterChildAppends(r, child, childPort, parentPid);
    RegisterParentResets(r1, parentPid, parentPort);
  }

  /*
   * Lookups
   */

  /** On the empty registry every lookup fails. */
  lemma EmptyRegistryKnowsNothing(port: int, pid: int)
    ensures GetPidByPort(EmptyRegistry, port) == None
    ensures GetPortByPid(EmptyRegistry, pid) == None
    ensures GetChildrenByParent(EmptyRegistry, pid) == []
  {
  }

  /**
    A process registered as a child and not as a parent is found by pid at the
    port it registered with.
   */
  lemma ChildPortFound(r: Registry, pid: int, port: int, parentPid: int)
    requires pid !in r.parents && pid != parentPid
    ensures GetPortByPid(Register(r, pid, port, Some(parentPid)), pid) == Some(port)
  {
  }

  /**
    The two lookups agree: a pid found listening on some port can itself be
    looked up, so `GetPortByPid` never answers nothing for it.
   */
  lemma PortLookupsAgree(r: Registry, port: int)
    requires GetPidByPort(r, port).Some?
    ensures GetPortByPid(r, GetPidByPort(r, port).value).Some?
  {
    var pid := GetPidByPort(r, port).value;
    assert port in r.portToPid && r.portToPid[port] == pid;
  }

  /** On a consistent registry every child record is among its parent's children. */
  lemma ChildFoundUnderItsParent(r: Registry, c: int)
    requires WellFormed(r) && c in r.children
    ensures c in GetChildrenByParent(r, r.children[c].parent)
  {
    assert ListedUnder(r, c, r.children[c].parent);
  }

  /**
    The scenario of one parent with two children: the parent's children come
    back exactly, in registration order.
   */
  lemma TwoChildrenInSpawnOrder(parent: int, c1: int, c2: int)
    ensures var r := Register(Register(Register(EmptyRegistry, parent, 5000, None), c1, 5001, Some(parent)), c2, 5002, Some(parent));
      GetChildrenByParent(r, parent) == [c1, c2]
  {
  }

  /*
   * Removal by port
   */

  /**
    Removal by port takes exactly the first occurrence of the owning pid out of
    every child list, in both `parentToChildren` and the parent records, and
    keeps the rest of each list in order; parent ports do not change.
   */
  lemma RemoveProcessCutsFirstOccurrence(r: Registry, port: int)
    requires port in r.portToPid
    ensures var pid := r.portToPid[port];
      var r' := RemoveProcess(r, port);
      && pid !in r'.children
      && (forall p :: p in r.parentToChildren ==>
            var s := r.parentToChildren[p];
            && (pid in s ==> r'.parentToChildren[p] == s[..FirstIndex(s, pid)] + s[FirstIndex(s, pid) + 1..])
            && (pid !in s ==> r'.parentToChildren[p] == s))
      && (forall p :: p in r.parents ==>
            var s := r.parents[p].children;
            && r'.parents[p].port == r.parents[p].port
            && (pid in s ==> r'.parents[p].children == s[..FirstIndex(s, pid)] + s[FirstIndex(s, pid) + 1..])
            && (pid !in s ==> r'.parents[p].children == s))
  {
  }

  /** A pid listed twice under a parent is still listed there after one removal. */
  lemma RemoveProcessLeavesDuplicate(r: Registry, port: int, parentPid: int)
    requires port in r.portToPid && parentPid in r.parentToChildren
    requires multiset(r.parentToChildren[parentPid])[r.portToPid[port]] >= 2
    ensures r.portToPid[port] in GetChildrenByParent(RemoveProcess(r, port), parentPid)
  {
    RemoveFirstKeepsDuplicate(r.parentToChildren[parentPid], r.portToPid[port]);
  }

  /** Removing the same port twice leaves the registry as one removal does. */
  lemma RemoveProcessIdempotent(r: Registry, port: int)
    ensures RemoveProcess(RemoveProcess(r, port), port) == RemoveProcess(r, port)
  {
  }

  /*
   * Cascading removal
   */

  /** Removing a parent and its children a second time changes nothing more. */
  lemma RemoveParentAndChildrenIdempotent(r: Registry, parentPid: int)
    ensures var once := RemoveParentAndChildren(r, parentPid);
      RemoveParentAndChildren(once, parentPid) == once
  {
    var once := RemoveParentAndChildren(r, parentPid);
    var twice := RemoveParentAndChildren(once, parentPid);
    assert GetChildrenByParent(once, parentPid) == [];
    assert twice.portToPid == once.portToPid;
    assert twice.children == once.children;
  }

  /**
    The cascade is driven by `parentToChildren`: a child listed under one parent
    but re-registered under another loses its record, and its port, when the
    first parent goes, while the second parent still lists it.
   */
  lemma CascadeFollowsChildIndex()
    ensures var r := Register(Register(Register(Register(EmptyRegistry,
                       1, 5000, None), 2, 5001, None), 3, 5002, Some(1)), 3, 5003, Some(2));
      && r.children[3].parent == 2
      && var r' := RemoveParentAndChildren(r, 1);
      && 3 !in r'.children
      && 5002 !in r'.portToPid && 5003 !in r'.portToPid
      && GetChildrenByParent(r', 2) == [3]
  {
    var r := Register(Register(Register(Register(EmptyRegistry,
               1, 5000, None), 2, 5001, None), 3, 5002, Some(1)), 3, 5003, Some(2));
    assert GetChildrenByParent(r, 1) == [3];
  }

  /*
   * Consistency of the indexes
   */

  lemma EmptyRegistryWellFormed()
    ensures WellFormed(EmptyRegistry)
  {
  }

  /** Registration keeps the indexes consistent, placeholder parents included. */
  lemma RegisterKeepsWellFormed(r: Registry, pid: int, port: int, parentPid: Option<int>)
    requires WellFormed(r)
    ensures WellFormed(Register(r, pid, port, parentPid))
  {
    var r' := Register(r, pid, port, parentPid);
    match parentPid
    case None =>
      forall p | p in r'.parents
        ensures multiset(r'.parents[p].children) <= multiset(GetChildrenByParent(r', p))
      {
        if p != pid {
          assert r'.parents[p] == r.parents[p];
        }
      }
    case Some(ppid) =>
      forall c | c in r'.children
        ensures ListedUnder(r', c, r'.children[c].parent)
      {
        if c != pid {
          var q := r.children[c].parent;
          assert ListedUnder(r, c, q);
          if q == ppid {
            assert r'.parentToChildren[q] == r.parentToChildren[q] + [pid];
          }
        } else {
          assert r'.parentToChildren[ppid] == GetChildrenByParent(r, ppid) + [pid];
        }
      }
      forall p | p in r'.parents
        ensures multiset(r'.parents[p].children) <= multiset(GetChildrenByParent(r', p))
      {
        if p == ppid {
          var old_ := if ppid in r.parents then r.parents[ppid].children else [];
          assert multiset(old_) <= multiset(GetChildrenByParent(r, ppid));
          assert r'.parents[p].children == old_ + [pid];
          assert GetChildrenByParent(r', p) == GetChildrenByParent(r, ppid) + [pid];
        } else {
          assert r'.parents[p] == r.parents[p];
          assert GetChildrenByParent(r', p) == GetChildrenByParent(r, p);
        }
      }
  }

  /** Removal by port keeps the indexes consistent. */
  lemma RemoveProcessKeepsWellFormed(r: Registry, port: int)
    requires WellFormed(r)
    ensures WellFormed(RemoveProcess(r, port))
  {
    if port in r.portToPid {
      var pid := r.portToPid[port];
      var r' := RemoveProcess(r, port);
      forall c | c in r'.children
        ensures ListedUnder(r', c, r'.children[c].parent)
      {
        var q := r.children[c].parent;
        assert ListedUnder(r, c, q);
        RemoveFirstKeepsOthers(r.parentToChildren[q], pid, c);
      }
      forall p | p in r'.parents
        ensures multiset(r'.parents[p].children) <= multiset(GetChildrenByParent(r', p))
      {
        var listed := GetChildrenByParent(r, p);
        RemoveFirstKeepsSubMultiset(r.parents[p].children, listed, pid);
        if p !in r.parentToChildren {
          assert RemoveFirst(listed, pid) == [];
        }
      }
    }
  }

  /** Cascading removal keeps the indexes consistent. */
  lemma RemoveParentAndChildrenKeepsWellFormed(r: Registry, parentPid: int)
    requires WellFormed(r)
    ensures WellFormed(RemoveParentAndChildren(r, parentPid))
  {
    var r' := RemoveParentAndChildren(r, parentPid);
    forall c | c in r'.children
      ensures ListedUnder(r', c, r'.children[c].parent)
    {
      assert ListedUnder(r, c, r.children[c].parent);
    }
  }

  /**
    On a consistent registry the cascade leaves no orphans: no remaining child
    record names the removed parent.
   */
  lemma CascadeLeavesNoOrphans(r: Registry, parentPid: int)
    requires WellFormed(r)
    ensures var r' := RemoveParentAndChildren(r, parentPid);
      forall c :: c in r'.children ==> r'.children[c].parent != parentPid
  {
    var r' := RemoveParentAndChildren(r, parentPid);
    forall c | c in r'.children
      ensures r'.children[c].parent != parentPid
    {
      assert ListedUnder(r, c, r.children[c].parent);
    }
  }
}
