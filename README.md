# libusbK device list, modelled in Dafny

This project models the libusbK device list API (`LstK_*`, declared in
`lusbk_device_list.h`). A device list is an ordered collection of device
information elements (`KLST_DEV_INFO`). Its enumerator is driven by
`LstK_Reset`, `LstK_MoveNext` and `LstK_Current`. The list also has a
vendor/product lookup, a callback traversal, element insertion and
removal, and cloning. The header declares the functions but gives no
bodies, so the model follows the behaviour its doc comments state.

Files:

- `sync_flags.dfy` (module `SyncFlags`): the `KLST_SYNC_FLAG` bit
  constants. The sync state is a tagged value, with its encoding into bits
  and its decoding back.
- `dev_info.dfy` (module `DevInfo`): `KLST_DEV_COMMON_INFO` and
  `KLST_DEV_INFO` as datatypes. The 32-bit fields are newtypes. Strings are
  opaque text bounded by `KLST_STRING_MAX_LEN`. The composite sub-list is a
  nested sequence of elements.
- `device_list.dfy` (module `DeviceList`): the enumerator as a `Cursor`
  datatype, plus its step function and the lemmas about it. The list
  itself is the class `DevList`, with a `seq<DevInfo>` field and a cursor
  field. The `LstK_*` operations are its methods.

Modelling decisions:

- A `CHAR[KLST_STRING_MAX_LEN]` field holds at most 255 characters plus the
  terminating NUL. A string therefore fits when its length is below 256.
- `LstK_MoveNext` from after-last resets the enumerator and, in the same
  call, moves onto the first element ("continues from the beginning"). As a
  result, N + 2 calls from before-first end on element 0.
- The header calls the result of `LstK_Current` before the first
  `LstK_MoveNext` undefined. The model reports `ERROR_NO_MORE_ITEMS` there,
  the same as after the last element.
- The header does not filter `LstK_FindByVidPid` by connection state, so
  the model matches on Vid and Pid alone. It returns the first match in
  list order.
- `LstK_Enumerate` returns the sequence of elements the callback was called
  on. The callback is a pure function value, and its context pointer is
  whatever the closure captures.
- `LstK_AddDevInfo` appends the element at the end of the list.
- `LstK_RemoveDevInfo` takes an element pointer in C. The model identifies
  the element by value and removes its first occurrence. If it is absent,
  the call returns false and nothing changes. The header does not say what
  happens to the enumerator. The model's policy: a position after the
  removed element moves down with its element, and a position on the
  removed element collapses to the previous index. The next `MoveNext` then
  yields the element that followed the removed one.
- `LstK_Init` becomes the `DevList` constructor. It takes the sequence of
  records the platform enumeration captured and positions the list before
  the first element. `LstK_Clone` positions the clone the same way.

## Model

| member | source | states |
|---|---|---|
| SyncFlags.FlagLayout | trunk/libusbK/includes/lusbk_device_list.h:21-28 | the three flags are the single bits 1, 2 and 4, pairwise disjoint; SYNC_FLAG_MASK as written, (REMOVED - 1) OR REMOVED, equals their union, 7 |
| SyncFlags.ToBits | trunk/libusbK/includes/lusbk_device_list.h:21-28 | the bits of a sync state lie inside the mask; a state other than NONE is exactly one bit; the UNCHANGED, ADDED and REMOVED bits are set exactly for their own state |
| SyncFlags.FromBits | trunk/libusbK/includes/lusbk_device_list.h:21-28 | a 32-bit value decodes to a sync state exactly when it is 0 or a single bit inside the mask, and the decoded state encodes back to that value |
| SyncFlags.BitsRoundTrip | trunk/libusbK/includes/lusbk_device_list.h:21-28 | decoding the encoding of every sync state gives that state back |
| DevInfo.WellFormedNested | trunk/libusbK/includes/lusbk_device_list.h:64-142 | in a well-formed element, every element reached through nested composite lists has all its strings, InstanceID included, below KLST_STRING_MAX_LEN, and a 32-byte user context |
| DeviceList.Next | trunk/libusbK/includes/lusbk_device_list.h:293-302 | one MoveNext keeps the enumerator on a valid position; it lands on an element unless the list is empty or the enumerator was on the last element; from an element it moves to the next index, and from before-first or after-last it moves to index 0; a step that lands on no element leaves the enumerator after the last element |
| DeviceList.CurrentAt | trunk/libusbK/includes/lusbk_device_list.h:266-277 | the element at the position, or ERROR_NO_MORE_ITEMS exactly when the enumerator is before the first or after the last element |
| DeviceList.VisitsInOrder | trunk/libusbK/includes/lusbk_device_list.h:293-296 | from before-first (after creation or Reset) the k-th MoveNext, for 1 <= k <= N, lands on element k - 1: the first call lands on element 0, and the first N calls visit each element once, in order |
| DeviceList.PassesEnd | trunk/libusbK/includes/lusbk_device_list.h:298-300 | the (N + 1)-th MoveNext from before-first leaves the enumerator after the last element |
| DeviceList.WrapsAround | trunk/libusbK/includes/lusbk_device_list.h:300-302 | for N > 0, N + 2 MoveNext calls from before-first end on element 0 |
| DeviceList.CycleRepeats | trunk/libusbK/includes/lusbk_device_list.h:298-302 | after the first call the sequence of positions repeats with period N + 1, so repeated polling never gets stuck |
| DeviceList.EmptyListExhausted | trunk/libusbK/includes/lusbk_device_list.h:271-273 | on an empty list every MoveNext leaves the enumerator after the last element, and Current then fails with ERROR_NO_MORE_ITEMS |
| DeviceList.RemovalKeepsCurrent | trunk/libusbK/includes/lusbk_device_list.h:404-406 | removing any element the enumerator does not stand on leaves Current reporting what it reported before: the same element, or ERROR_NO_MORE_ITEMS before the first and after the last element |
| DeviceList.RemovalThenMoveNext | trunk/libusbK/includes/lusbk_device_list.h:404-406 | after the current element is removed, the next MoveNext yields the element that followed it, or passes the end if it was the last |
| DeviceList.RemovalKeepsCursorValid | trunk/libusbK/includes/lusbk_device_list.h:404-406 | removal leaves every valid position valid for the shorter list |
| DeviceList.DevList.constructor | trunk/libusbK/includes/lusbk_device_list.h:200-217 | a new list holds the captured records in order and is positioned before the first element |
| DeviceList.DevList.Count | trunk/libusbK/includes/lusbk_device_list.h:376-378 | the number of top-level elements; AddDevInfo raises it by one, a successful RemoveDevInfo lowers it by one, a clone has the same count, and PollCycle shows it is the number of MoveNext calls that succeed after Reset |
| DeviceList.DevList.Reset | trunk/libusbK/includes/lusbk_device_list.h:309-318 | the enumerator is back before the first element and the elements are unchanged |
| DeviceList.DevList.MoveNext | trunk/libusbK/includes/lusbk_device_list.h:283-307 | the enumerator takes one Next step; the call returns the element it now stands on, or nothing with FALSE when it passed the end; the elements are unchanged |
| DeviceList.DevList.Current | trunk/libusbK/includes/lusbk_device_list.h:254-281 | returns the element at the enumerator, or ERROR_NO_MORE_ITEMS before the first or after the last element; it changes nothing and its result is CurrentAt of the state, so consecutive calls return the same element |
| DeviceList.DevList.FindByVidPid | trunk/libusbK/includes/lusbk_device_list.h:320-348 | succeeds exactly when some element matches both Vid and Pid, and then returns the first such element in list order; otherwise fails with ERROR_NO_MORE_ITEMS and returns no element |
| DeviceList.DevList.Enumerate | trunk/libusbK/includes/lusbk_device_list.h:233-252 | the elements the callback is called on form a prefix of the list in list order; the callback returned TRUE on all of them but the last; the traversal stops early only right after a FALSE; if the callback always returns TRUE, every element is visited |
| DeviceList.DevList.AddDevInfo | trunk/libusbK/includes/lusbk_device_list.h:408-410 | the element is appended at the end, so Count grows by one; the enumerator keeps its position |
| DeviceList.DevList.RemoveDevInfo | trunk/libusbK/includes/lusbk_device_list.h:404-406 | returns TRUE exactly when the element is in the list; then its first occurrence is removed and the enumerator is adjusted as described above, so Count drops by one; otherwise nothing changes |
| DeviceList.DevList.Clone | trunk/libusbK/includes/lusbk_device_list.h:385-398 | a fresh list with the same element sequence and Count, positioned before the first element, with every string field within KLST_STRING_MAX_LEN |
| DeviceList.PollCycle | trunk/libusbK/includes/lusbk_device_list.h:293-302 | through the class API: after Reset, Count() MoveNext calls return the elements in list order, the next call returns nothing and leaves the enumerator after the last element, and the call after that returns element 0 (or nothing on an empty list); the elements are unchanged |
| DeviceList.CloneIsolation | trunk/libusbK/includes/lusbk_device_list.h:385-398 | adding to a clone and moving the clone's enumerator leave the source list's elements and enumerator unchanged |

## Left out

- `LstK_Init`'s platform enumeration (SetupAPI queries, device-interface GUIDs, `KLST_INIT_PARAMS`, and the failure when the system cannot be queried) is platform I/O. The constructor takes the captured records as a parameter instead.
- Parsing Vid, Pid and MI out of the InstanceID is platform-supplied. These fields are taken as given.
- `LstK_Lock` and `LstK_Unlock` are left out because they exist for thread mutual exclusion. The model is sequential.
- `LstK_Free` and `LstK_FreeDevInfo` are left out because they are manual memory management. Values in the model need no release.
- `LstK_Sync` is left out because the header declares it without stating its merge rules. Composite grouping (how `CompositeList` is filled) is left out for the same reason. The sync state is one of the flag values, and `CompositeList` is a given nested sequence.
- `LstK_CloneDevInfo` is left out because copying a value record yields the record itself. `LstK_Clone` therefore copies deeply by construction.
- The packed layout (`PSHPACK1`) and the union/bitfield aliasing of `SyncResults` are left out. The sync state is a tagged value plus a separate `userFlags` field. `SyncFlags.ToBits` relates the state to the bits.
- Pointer identity and aliasing are left out. The C API returns borrowed pointers into the list, and a caller could write through them, for example into `UserContext`. Removal is by value, not by pointer identity.
- The callback of `LstK_Enumerate` receives the list handle in C. In the model it cannot change the list.
- Failures caused by invalid handles, failed allocation or other internal errors are left out. These are the FALSE-on-error results of every `LstK_*` call that returns a BOOL: `LstK_Count`, `LstK_Enumerate`, `LstK_Current`, `LstK_MoveNext`, `LstK_FindByVidPid` ("or an error occured"), `LstK_AddDevInfo`, `LstK_RemoveDevInfo` and `LstK_Clone`. A FALSE that the header ties to a documented condition (the end of the list, an element not found) is modelled.
- Count: the model returns an unbounded count rather than a 32-bit `ULONG`.
- The string contents (GUIDs, `SymbolicLink`, `DevicePath`, `Service`) are opaque text. Only their length bound is modelled.
- `examples.c` is demo plumbing over command-line parsing, `printf` and OS calls, and is not part of this model.
