/**
  The process registry: the topology store of parents, children and the ports
  they listen on, kept as four indexes.

    portToPid         port -> pid
    parentToChildren  parent pid -> child pids, in registration order
    parents           parent pid -> its port and its own copy of the child list
    children          child pid -> its port and its parent's pid

  Keys are integers; the string keys of the persisted form are not modelled.
 */
module ProcessRegistry {
  import opened Optional
  import opened PyList

  datatype ParentEntry = ParentEntry(port: int, children: seq<int>)

  datatype ChildEntry = ChildEntry(port: int, parent: int)

  datatype Registry = Registry(
    portToPid: map<int, int>,
    parentToChildren: map<int, seq<int>>,
    parents: map<int, ParentEntry>,
    children: map<int, ChildEntry>)

  /** The registry before anything is registered: all four indexes empty. */
  const EmptyRegistry := Registry(map[], map[], map[], map[])

  /** Port recorded for a parent that is known only because one of its children registered. */
  const PlaceholderPort := -1

  /*
   * Lookups
   */

  /** The ports that map to `pid`. */
  function Owners(ports: map<int, int>, pid: int): set<int> {
    set q | q in ports && ports[q] == pid
  }

  /** The pid listening on `port`, if any: `port` is then one of that pid's ports. */
  function GetPidByPort(r: Registry, port: int): (pid: Option<int>)
    ensures pid.None? <==> port !in r.portToPid
    ensures pid.Some? ==> port in Owners(r.portToPid, pid.value)
  {
    if port in r.portToPid then Some(r.portToPid[port]) else None
  }

  /** The children registered for `parentPid`; an unknown parent has none (no error). */
  function GetChildrenByParent(r: Registry, parentPid: int): (kids: seq<int>)
    ensures parentPid !in r.parentToChildren ==> kids == []
  {
    if parentPid in r.parentToChildren then r.parentToChildren[parentPid] else []
  }

  /**
    The reverse scan over `portToPid`: some port that maps to `pid`. Of the
    candidates it picks the least, so that the answer is determined by the map.
   */
  function PortOwnedBy(ports: map<int, int>, pid: int): (port: Option<int>)
    ensures port.None? <==> forall q :: q in ports ==> ports[q] != pid
    ensures port.Some? ==> port.value in ports && ports[port.value] == pid
    ensures port.Some? ==> forall q :: q in ports && ports[q] == pid ==> port.value <= q
  {
    var owners := Owners(ports, pid);
    if owners != {} then
      LeastExists(owners);
      var p :| IsLeast(p, owners);
      assert forall q :: q in ports && ports[q] == pid ==> q in owners;
      Some(p)
    else
      assert forall q :: q in ports ==> q !in owners;
      None
  }

  /**
    The port of `pid`: its parent record wins over its child record, and the
    reverse scan of `portToPid` is the last resort.
   */
  function GetPortByPid(r: Registry, pid: int): (port: Option<int>)
    ensures pid in r.parents ==> port == Some(r.parents[pid].port)
    ensures pid !in r.parents && pid in r.children ==> port == Some(r.children[pid].port)
    ensures pid !in r.parents && pid !in r.children && port.Some? ==>
              port.value in r.portToPid && r.portToPid[port.value] == pid
    ensures port.None? <==>
              pid !in r.parents && pid !in r.children && forall q :: q in r.portToPid ==> r.portToPid[q] != pid
  {
    if pid in r.parents then Some(r.parents[pid].port)
    else if pid in r.children then Some(r.children[pid].port)
    else PortOwnedBy(r.portToPid, pid)
  }

  /*
   * Mutations
   */

  /**
    Register `pid` on `port`. Without a parent pid it becomes a parent with a
    fresh, empty child list; with one it becomes that parent's child, appended
    to both child lists, and an unknown parent gets a placeholder record.
   */
  function Register(r: Registry, pid: int, port: int, parentPid: Option<int>): (r': Registry)
    ensures GetPidByPort(r', port) == Some(pid)
    ensures r'.portToPid.Keys == r.portToPid.Keys + {port}
    ensures forall p :: p in r.portToPid && p != port ==> r'.portToPid[p] == r.portToPid[p]
  {
    var ports := r.portToPid[port := pid];
    match parentPid
    case None =>
      r.(portToPid := ports, parents := r.parents[pid := ParentEntry(port, [])])
    case Some(ppid) =>
      var entry := if ppid in r.parents then r.parents[ppid] else ParentEntry(PlaceholderPort, []);
      r.(portToPid := ports,
         children := r.children[pid := ChildEntry(port, ppid)],
         parents := r.parents[ppid := entry.(children := entry.children + [pid])],
         parentToChildren := r.parentToChildren[ppid := GetChildrenByParent(r, ppid) + [pid]])
  }

  /**
    Forget whoever listens on `port`: the port mapping, that pid's child
    record, and one occurrence of that pid in every child list. Parent records
    and other ports of the same pid stay.
   */
  function RemoveProcess(r: Registry, port: int): (r': Registry)
    ensures port !in r'.portToPid
    ensures r'.portToPid.Keys == r.portToPid.Keys - {port}
    ensures forall p :: p in r'.portToPid ==> r'.portToPid[p] == r.portToPid[p]
    ensures r'.parents.Keys == r.parents.Keys
    ensures r'.parentToChildren.Keys == r.parentToChildren.Keys
    ensures port in r.portToPid ==> r'.children.Keys == r.children.Keys - {r.portToPid[port]}
    ensures forall c :: c in r'.children ==> c in r.children && r'.children[c] == r.children[c]
    ensures port !in r.portToPid ==> r' == r
  {
    if port !in r.portToPid then r
    else
      var pid := r.portToPid[port];
      Registry(
        r.portToPid - {port},
        map p | p in r.parentToChildren :: RemoveFirst(r.parentToChildren[p], pid),
        map p | p in r.parents :: r.parents[p].(children := RemoveFirst(r.parents[p].children, pid)),
        r.children - {pid})
  }

  /**
    Drop `parentPid` and every child listed for it in `parentToChildren`,
    together with every port mapped to any of them. Only one level is removed,
    and the child records' own `parent` fields play no part.
   */
  function RemoveParentAndChildren(r: Registry, parentPid: int): (r': Registry)
    ensures parentPid !in r'.parents && parentPid !in r'.parentToChildren
    ensures r'.parents.Keys == r.parents.Keys - {parentPid}
    ensures r'.parentToChildren.Keys == r.parentToChildren.Keys - {parentPid}
    ensures forall q :: q in r'.parents ==> r'.parents[q] == r.parents[q]
    ensures forall q :: q in r'.parentToChildren ==> r'.parentToChildren[q] == r.parentToChildren[q]
    ensures forall c :: c in r.children ==>
              (c in r'.children <==> c !in GetChildrenByParent(r, parentPid))
    ensures forall c :: c in r'.children ==> c in r.children && r'.children[c] == r.children[c]
    ensures forall p :: p in r'.portToPid ==>
              r'.portToPid[p] != parentPid && r'.portToPid[p] !in GetChildrenByParent(r, parentPid)
    ensures forall p :: p in r.portToPid ==>
              var pid := r.portToPid[p];
              (p in r'.portToPid <==> pid != parentPid && pid !in GetChildrenByParent(r, parentPid))
    ensures forall p :: p in r'.portToPid ==> p in r.portToPid && r'.portToPid[p] == r.portToPid[p]
  {
    var listed := GetChildrenByParent(r, parentPid);
    Registry(
      map p | p in r.portToPid && r.portToPid[p] != parentPid && r.portToPid[p] !in listed :: r.portToPid[p],
      r.parentToChildren - {parentPid},
      r.parents - {parentPid},
      map c | c in r.children && c !in listed :: r.children[c])
  }

  /*
   * Consistency of the indexes
   */

  /** Child `c` is listed under `p`, and `p` has a parent record. */
  predicate ListedUnder(r: Registry, c: int, p: int) {
    p in r.parents && p in r.parentToChildren && c in r.parentToChildren[p]
  }

  /**
    The consistency every sequence of registry operations keeps: each child
    record's parent has a parent record and lists the child in
    `parentToChildren`, and a parent record's own child list never holds more
    copies of a pid than `parentToChildren` does.
   */
  predicate WellFormed(r: Registry) {
    && (forall c :: c in r.children ==> ListedUnder(r, c, r.children[c].parent))
    && (forall p :: p in r.parents ==>
          multiset(r.parents[p].children) <= multiset(GetChildrenByParent(r, p)))
  }
}
