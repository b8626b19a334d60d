# port-pulse bookkeeping core, in Dafny

port-pulse spawns trees of worker processes on one host, gives each one a
port, and keeps track of who is who. This project models the three in-memory
bookkeeping components behind that, and proves properties about them:

- **Process registry** (`process_registry.dfy`, `registry_properties.dfy`,
  module `ProcessRegistry` and `RegistryProperties`). The registry is a
  topology store with four indexes: `portToPid`, `parentToChildren`, `parents`
  (port plus the parent's own child list) and `children` (port plus parent
  pid). It is modelled as an immutable datatype of four `map`s with `int`
  keys. The operations are register, lookup by port and by pid (with the
  reverse-scan fallback), children of a parent, removal by port, and cascading
  removal of a parent. The model keeps the source's quirks:
  - `list.remove` drops only the first occurrence (`PyList.RemoveFirst`).
  - Re-registering a parent empties its own child list but leaves
    `parentToChildren` alone.
  - A child of an unknown parent creates a placeholder parent on port `-1`.
  - The cascade follows `parentToChildren`, not the children's `parent`
    fields.

  Beyond the per-call contracts, `WellFormed` states the consistency the
  indexes keep. Every child record's parent has a parent record, and that
  parent lists the child in `parentToChildren`. A parent record's own child
  list is a sub-multiset of `parentToChildren`. Every operation preserves
  `WellFormed`, and on a well-formed registry the cascade leaves no orphan
  that names the removed parent.
- **Port allocator** (`port_allocator.dfy`, `allocator_properties.dfy`).
  It scans the half-open range `[startPort, endPort)` upward and grants the
  least port that is neither used nor refused by the bind probe. It records
  that port as used and fails, with no change, when no such port exists.
  Release is a set removal. The bind probe is the parameter
  `avail: int -> bool`.
- **Process monitor tracking list** (`process_monitor.dfy`). Registration
  appends a record that starts out alive. A refresh rewrites only the `alive`
  field of each record, from the liveness probe `isAlive: int -> bool`.

`optional.dfy` holds the `Option` type that stands for Python's
`None`-or-value returns. `pylist.dfy` holds Python's first-occurrence
`list.remove` and the least-element argument used by the reverse scan.

Two facts about the code that the model keeps:
- The allocation table is a plain in-memory set. It has no lock and is not
  shared between processes.
- Parent removal removes one level: the parent and the children listed for
  it. Grandchildren stay.

## Model

| member | source | states |
|---|---|---|
| ProcessRegistry.PortOwnedBy | src/core/process_registry.py:67-72 | the reverse scan answers a port that maps to the pid, and answers nothing exactly when no port maps to it |
| ProcessRegistry.GetPidByPort | src/core/process_registry.py:55-56 | answers nothing exactly when the port is unmapped, and otherwise a pid the port belongs to; with `PortLookupsAgree` that pid can be looked up in turn, and `Register`'s first ensures and `EmptyRegistryKnowsNothing` state it after registration and on the empty registry |
| ProcessRegistry.GetChildrenByParent | src/core/process_registry.py:74-75 | an unknown parent has the empty list, not an error; `RegisterChildAppends`, `TwoChildrenInSpawnOrder` and `ChildFoundUnderItsParent` state what the list holds |
| ProcessRegistry.GetPortByPid | src/core/process_registry.py:59-72 | parent record first, then child record, then a port mapped to the pid; nothing exactly when none of the three applies |
| ProcessRegistry.Register | src/core/process_registry.py:32-54 | afterwards the port maps to the pid; every other port keeps its pid and no port is dropped |
| ProcessRegistry.RemoveProcess | src/core/process_registry.py:77-90 | the port is unmapped, other ports keep their pids, the owner's child record goes, and the key sets of `parents` and `parent_to_children` do not change; an unmapped port changes nothing |
| ProcessRegistry.RemoveParentAndChildren | src/core/process_registry.py:92-108 | the parent leaves `parents` and `parent_to_children`; exactly the listed children lose their records; a port survives exactly when its pid is neither the parent nor a listed child; all else is untouched |
| PyList.RemoveFirst | src/core/process_registry.py:83-84 | guarded `list.remove`: when the pid is present its FIRST occurrence is cut and every other entry keeps its order (so exactly one copy leaves the multiset); when absent the list is unchanged |
| RegistryProperties.EmptyRegistryKnowsNothing | src/core/process_registry.py:9-75 | on the initial empty indexes every lookup by port, by pid and by parent fails |
| RegistryProperties.RegisterParentResets | src/core/process_registry.py:37-42 | parent registration sets `{port, children: []}` even over an existing child list, leaves `parent_to_children`, `children` and other parents alone |
| RegistryProperties.RegisterChildAppends | src/core/process_registry.py:44-52 | child registration records `{port, parent}` and appends the pid at the end of both the parent's list and `parent_to_children`; the key sets grow by exactly the child and the parent, and every other entry is unchanged |
| RegistryProperties.RegisterChildTwiceDuplicates | src/core/process_registry.py:51-52 | registering the same child twice lists it twice |
| RegistryProperties.PlaceholderParentPort | src/core/process_registry.py:50-63 | a child of an unknown parent creates the placeholder `{port: -1, children: [child]}`, and a lookup of the parent's port then answers -1 |
| RegistryProperties.ParentArrivalReplacesPlaceholder | src/core/process_registry.py:37-52 | when the real parent registers after its child, its port replaces -1, its own list empties, and `parent_to_children` still lists the child |
| RegistryProperties.ChildPortFound | src/core/process_registry.py:59-65 | a process registered only as a child is found at its registered port |
| RegistryProperties.PortLookupsAgree | src/core/process_registry.py:55-72 | a pid that `get_pid_by_port` finds on some port is always found by `get_port_by_pid` as well |
| RegistryProperties.ChildFoundUnderItsParent | src/core/process_registry.py:74-75 | on a consistent registry every child record's pid is among `get_children_by_parent` of its parent |
| RegistryProperties.TwoChildrenInSpawnOrder | src/core/process_registry.py:32-75 | one parent with two children: the children come back exactly, in registration order |
| RegistryProperties.RemoveProcessCutsFirstOccurrence | src/core/process_registry.py:77-88 | every child list in both indexes loses the first occurrence of the removed pid and keeps the rest in order; parent ports stay |
| RegistryProperties.RemoveProcessLeavesDuplicate | src/core/process_registry.py:86-88 | a pid listed twice under a parent is still listed there after one removal |
| RegistryProperties.RemoveProcessIdempotent | src/core/process_registry.py:77-90 | removing the same port twice gives the state one removal gives |
| RegistryProperties.RemoveParentAndChildrenIdempotent | src/core/process_registry.py:92-108 | a second cascade for the same parent changes nothing |
| RegistryProperties.CascadeFollowsChildIndex | src/core/process_registry.py:95-101 | a child re-registered under another parent still loses its record and both its ports when the first parent is removed, while the second parent keeps listing it |
| RegistryProperties.EmptyRegistryWellFormed | src/core/process_registry.py:9-14 | the empty registry is consistent |
| RegistryProperties.RegisterKeepsWellFormed | src/core/process_registry.py:32-54 | registration preserves index consistency, placeholder parents included |
| RegistryProperties.RemoveProcessKeepsWellFormed | src/core/process_registry.py:77-90 | removal by port preserves index consistency |
| RegistryProperties.RemoveParentAndChildrenKeepsWellFormed | src/core/process_registry.py:92-108 | the cascade preserves index consistency |
| RegistryProperties.CascadeLeavesNoOrphans | src/core/process_registry.py:95-103 | on a consistent registry no child record left after the cascade names the removed parent |
| PortAllocator.NewAllocator | src/core/port_allocator.py:9-19 | a new allocator has the given range, [5000, 6000) by default, and no used port |
| PortAllocator.FirstEligible | src/core/port_allocator.py:49-50 | the ascending scan finds a port in range that is unused and bindable, with every earlier port in range used or unbindable; nothing exactly when every port in range is used or unbindable |
| PortAllocator.GetNextFreePort | src/core/port_allocator.py:39-53 | the granted port is in range, was unused, passes the probe, and is the least such port; used grows by exactly that port; the call fails exactly when no port is eligible, and then nothing changes |
| PortAllocator.ReleasePort | src/core/port_allocator.py:55-62 | the port is no longer used, every other port keeps its status, and the range is unchanged |
| PortAllocator.AllocateRepeatedly | src/core/port_allocator.py:49-51 | successive grants without a release are pairwise distinct, in range, previously unused and bindable, and used grows by exactly them |
| AllocatorProperties.ReleaseUnusedIsNoOp | src/core/port_allocator.py:55-62 | releasing a port that is not used changes nothing |
| AllocatorProperties.ReleaseIdempotent | src/core/port_allocator.py:55-62 | releasing twice is releasing once |
| AllocatorProperties.ReleaseUndoesAllocate | src/core/port_allocator.py:49-62 | releasing the port just granted restores the allocator from before the grant |
| AllocatorProperties.StartPortReusedAfterRelease | src/core/port_allocator.py:49-62 | after the start port is granted and released, the next call grants it again while it stays bindable |
| AllocatorProperties.LowestPortReused | src/core/port_allocator.py:49-62 | over 5000..5009: grant 5000, grant 5001, release 5000, grant 5000 |
| AllocatorProperties.AllocateKeepsUsedWithinRange | src/core/port_allocator.py:49-51 | a grant keeps every used port inside the range |
| AllocatorProperties.ReleaseKeepsUsedWithinRange | src/core/port_allocator.py:62 | a release keeps every used port inside the range |
| AllocatorProperties.GrantsBoundedByRange | src/core/port_allocator.py:49-53 | however many calls are made without a release, no more ports are granted than the range holds |
| AllocatorProperties.ExhaustedAfterRangeSize | src/core/port_allocator.py:49-53 | once as many grants as the range has ports have succeeded, the next call fails |
| ProcessMonitor.RegisterProcess | src/core/monitor.py:15-24 | appends exactly one record `{pid, port, role, alive: true}` at the end and leaves the earlier records as they were |
| ProcessMonitor.RefreshStatus | src/core/monitor.py:36-41 | same length and order; pid, port and role of every record kept; each `alive` equals the probe's answer for that pid |
| ProcessMonitor.RefreshIdempotent | src/core/monitor.py:40-41 | with the same probe answers a second refresh changes nothing |
| ProcessMonitor.RefreshAfterRegister | src/core/monitor.py:15-41 | a refresh after a registration is the refresh of the earlier records plus the new record as the probe reports it |
| ProcessMonitor.RefreshFixedPoints | src/core/monitor.py:40-41 | a refresh leaves the list unchanged exactly when every `alive` flag already agrees with the probe |

## Left out

- Registry persistence (`_load_registry`, `_save_registry`): file I/O. The model holds the four indexes in memory and keys them by `int`. The string keys of the JSON form are a storage detail.
- `get_all_parents`, `get_all_children`: each returns one of the four indexes unchanged; in the model that is the `parents` or `children` field of `Registry`. `list_all_processes` returns the whole registry, all four indexes; in the model that is the `Registry` value itself.
- The `pid is not None` test in `remove_process`: `portToPid` holds only integers in the model, so a mapped port always has a pid.
- ProcessRegistry.PortOwnedBy: Python returns the first matching port in the dict's insertion order. The model does not track insertion order and returns the least matching port; its contract states that choice. So when a pid owns several ports the two can differ: a child registered on 6000, then 5500, then 5000, with 6000 removed, gets 5500 from Python and 5000 from the model. What both share is that the answer is a port mapped to the pid, and that there is none exactly when no port maps to it.
- `is_port_available` (the socket bind probe) and `check_process_alive` (the signal-0 probe): operating-system calls. They are the parameters `avail` and `isAlive`.
- PortAllocator.GetNextFreePort: `avail` stands for the bind probe on ports 0..65535 only. For a port outside that range `bind` raises `OverflowError`, which the probe's `except OSError` does not catch, so a scan that reaches such a port aborts with that exception. The model instead treats the port like any other probe answer. Its contract therefore describes ranges inside 0..65536 only.
- ProcessMonitor.RefreshStatus: `isAlive` stands for the signal-0 probe on pids that fit a C `int` only. For a larger pid `os.kill` raises `OverflowError`, which is not caught, so `refresh_status` stops part-way, with the earlier records already rewritten. The model has no such abort.
- PortAllocator.AllocateRepeatedly: one probe answers all `n` calls, while the real bind probe is asked afresh on every call. Distinctness and the range bound do not depend on the probe's answers.
- Locking and sharing of the allocation table between processes: the code has neither. `used_ports` is a plain in-memory set.
- `ProcessMonitor.__init__`'s `refresh_rate` and `show_dashboard`: a timed terminal rendering loop. The tracking list starts empty (`NoneTracked`).
- Process orchestration (`src/core/process_manager.py`), message transport (`src/core/message_handler.py`), logging (`src/core/logger.py`), configuration constants (`src/core/config.py`), the command line (`src/cli/`) and the Tk dashboard (`src/ui/dashboard.py`): OS processes, sockets, files, clocks and UI. None of them are part of this model.
