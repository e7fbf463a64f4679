/** The device list (KLST_DEV_LIST behind a KLST_HANDLE): an ordered
    collection of device elements with an enumerator position, driven by
    LstK_Reset, LstK_MoveNext and LstK_Current. */
module DeviceList {
  import opened SyncFlags
  import opened DevInfo

  /** Error codes reported through the last-error value. */
  datatype ErrorCode = ErrorNoMoreItems

  datatype Result<T> = Ok(value: T) | Err(code: ErrorCode)

  /** The enumerator position. */
  datatype Cursor = BeforeFirst | At(i: nat) | AfterLast

  /** A position of a list of n elements names one of the elements. */
  predicate CursorValid(c: Cursor, n: nat) {
    c.At? ==> c.i < n
  }

  /** One LstK_MoveNext on a list of n elements. From after-last the
      enumerator is reset and continues from the beginning, so that step is
      the same as the one from before-first. */
  function Next(c: Cursor, n: nat): (r: Cursor)
    ensures CursorValid(r, n)
    ensures r.At? <==> n > 0 && !(c.At? && c.i + 1 >= n)
    ensures r.At? && c.At? ==> r.i == c.i + 1
    ensures r.At? && !c.At? ==> r.i == 0
    ensures !r.At? ==> r == AfterLast
  {
    match c
    case BeforeFirst => if n > 0 then At(0) else AfterLast
    case At(i) => if i + 1 < n then At(i + 1) else AfterLast
    case AfterLast => if n > 0 then At(0) else AfterLast
  }

  /** k consecutive LstK_MoveNext calls. */
  function Steps(c: Cursor, n: nat, k: nat): Cursor
    decreases k
  {
    if k == 0 then c else Steps(Next(c, n), n, k - 1)
  }

  /** What LstK_Current reports at a position. */
  function CurrentAt(s: seq<DevInfo>, c: Cursor): (r: Result<DevInfo>)
    requires CursorValid(c, |s|)
    ensures r.Ok? <==> c.At?
    ensures r.Ok? ==> r.value == s[c.i]
    ensures r.Err? ==> r.code == ErrorNoMoreItems
  {
    if c.At? then Ok(s[c.i]) else Err(ErrorNoMoreItems)
  }

  /** The sequence without its element at j. */
  function RemoveAt(s: seq<DevInfo>, j: nat): (r: seq<DevInfo>)
    requires j < |s|
    ensures |r| == |s| - 1
    ensures forall k | 0 <= k < j :: r[k] == s[k]
    ensures forall k | j <= k < |r| :: r[k] == s[k + 1]
  {
    s[..j] + s[j + 1..]
  }

  /** Where the enumerator stands after the element at j is removed: a
      position after j moves down with its element, and a position on j
      collapses to the previous index, so that the next LstK_MoveNext yields
      the element that followed the removed one. */
  function AfterRemoval(c: Cursor, j: nat): (r: Cursor)
  {
    match c
    case At(i) =>
      if j < i then At(i - 1)
      else if j == i then (if i == 0 then BeforeFirst else At(i - 1))
      else c
    case _ => c
  }

  /** The index of the first element of s equal to d. */
  function FirstIndex(s: seq<DevInfo>, d: DevInfo): (r: nat)
    requires d in s
    ensures r < |s| && s[r] == d
    ensures forall k | 0 <= k < r :: s[k] != d
  {
    if s[0] == d then 0 else 1 + FirstIndex(s[1..], d)
  }

  // ---------------------------------------------------------------------
  // Properties of the enumerator state machine
  // ---------------------------------------------------------------------

  /** Steps compose: a + b calls are a calls followed by b calls. */
  lemma {:induction false} StepsAdd(c: Cursor, n: nat, a: nat, b: nat)
    ensures Steps(c, n, a + b) == Steps(Steps(c, n, a), n, b)
    decreases a
  {
    if a > 0 {
      StepsAdd(Next(c, n), n, a - 1, b);
    }
  }

  /** Inside the list each call moves one element further. */
  lemma {:induction false} StepsWithin(i: nat, n: nat, k: nat)
    requires i + k < n
    ensures Steps(At(i), n, k) == At(i + k)
    decreases k
  {
    if k > 0 {
      StepsWithin(i + 1, n, k - 1);
    }
  }

  /** From before-first, the k-th call (1 <= k <= n) lands on element k - 1:
      the first n calls visit every element once, in list order. */
  lemma VisitsInOrder(n: nat, k: nat)
    requires 1 <= k <= n
    ensures Steps(BeforeFirst, n, k) == At(k - 1)
  {
    StepsWithin(0, n, k - 1);
  }

  /** The (n + 1)-th call passes the end and leaves the enumerator after the
      last element. */
  lemma PassesEnd(n: nat)
    ensures Steps(BeforeFirst, n, n + 1) == AfterLast
  {
    if n > 0 {
      VisitsInOrder(n, n);
      StepsAdd(BeforeFirst, n, n, 1);
    }
  }

  /** The (n + 2)-th call wraps around onto the first element. */
  lemma WrapsAround(n: nat)
    requires n > 0
    ensures Steps(BeforeFirst, n, n + 2) == At(0)
  {
    PassesEnd(n);
    StepsAdd(BeforeFirst, n, n + 1, 1);
  }

  /** Polling never gets stuck: after the first call the enumerator repeats
      with period n + 1. */
  lemma CycleRepeats(n: nat, k: nat)
    requires k >= 1
    ensures Steps(BeforeFirst, n, k + (n + 1)) == Steps(BeforeFirst, n, k)
  {
    StepsAdd(BeforeFirst, n, n + 1, k);
    PassesEnd(n);
    assert Steps(AfterLast, n, k) == Steps(Next(AfterLast, n), n, k - 1);
  }

  /** On an empty list every call leaves the enumerator after the last
      element, so Current always fails. */
  lemma {:induction false} EmptyListExhausted(c: Cursor, k: nat)
    requires k >= 1
    ensures Steps(c, 0, k) == AfterLast
    ensures CurrentAt([], Steps(c, 0, k)) == Err(ErrorNoMoreItems)
    decreases k
  {
    if k > 1 {
      EmptyListExhausted(Next(c, 0), k - 1);
    }
  }

  /** Removing an element the enumerator does not stand on keeps Current
      reporting what it reported before: the same element, or
      ERROR_NO_MORE_ITEMS before the first and after the last. */
  lemma RemovalKeepsCurrent(s: seq<DevInfo>, c: Cursor, j: nat)
    requires CursorValid(c, |s|) && j < |s|
    requires c.At? ==> c.i != j
    ensures CursorValid(AfterRemoval(c, j), |s| - 1)
    ensures CurrentAt(RemoveAt(s, j), AfterRemoval(c, j)) == CurrentAt(s, c)
  {
  }

  /** Removing the current element: the next call yields the element that
      followed it, or passes the end if it was the last one. */
  lemma RemovalThenMoveNext(s: seq<DevInfo>, j: nat)
    requires j < |s|
    ensures var c := Next(AfterRemoval(At(j), j), |s| - 1);
      if j + 1 < |s| then CurrentAt(RemoveAt(s, j), c) == Ok(s[j + 1])
      else c == AfterLast
  {
  }

  /** Removal keeps every position valid for the shorter list. */
  lemma RemovalKeepsCursorValid(c: Cursor, n: nat, j: nat)
    requires CursorValid(c, n) && j < n
    ensures CursorValid(AfterRemoval(c, j), n - 1)
  {
  }

  // ---------------------------------------------------------------------
  // The list
  // ---------------------------------------------------------------------

  class DevList {
    var elements: seq<DevInfo>
    var cursor: Cursor

    ghost predicate Valid()
      reads this
    {
      && CursorValid(cursor, |elements|)
      && forall k | 0 <= k < |elements| :: WellFormed(elements[k])
    }

    /** LstK_Init, given the records the platform enumeration captured: the
        new list holds them in order and is positioned before the first. */
    constructor (records: seq<DevInfo>)
      requires forall k | 0 <= k < |records| :: WellFormed(records[k])
      ensures Valid()
      ensures elements == records && cursor == BeforeFirst
    {
      elements := records;
      cursor := BeforeFirst;
    }

    /** LstK_Count: the number of top-level elements. */
    function Count(): (n: nat)
      reads this
      ensures n == |elements|
    {
      |elements|
    }

    /** LstK_Reset: back before the first element. */
    method Reset()
      requires Valid()
      modifies this`cursor
      ensures Valid()
      ensures cursor == BeforeFirst && elements == old(elements)
    {
      cursor := BeforeFirst;
    }

    /** LstK_MoveNext: advance the enumerator and, on success, hand back the
        element it now stands on; None when it passes the end. */
    method MoveNext() returns (r: Option<DevInfo>)
      requires Valid()
      modifies this`cursor
      ensures Valid()
      ensures elements == old(elements)
      ensures cursor == Next(old(cursor), |elements|)
      ensures r.Some? <==> cursor.At?
      ensures r.Some? ==> r.value == elements[cursor.i]
    {
      cursor := Next(cursor, |elements|);
      if cursor.At? {
        r := Some(elements[cursor.i]);
      } else {
        r := None;
      }
    }

    /** LstK_Current: the element at the enumerator, or ERROR_NO_MORE_ITEMS
        when it stands before the first or after the last element. It
        changes nothing, so consecutive calls agree. */
    method Current() returns (r: Result<DevInfo>)
      requires Valid()
      ensures r.Ok? <==> cursor.At?
      ensures r.Ok? ==> r.value == elements[cursor.i]
      ensures r.Err? ==> r.code == ErrorNoMoreItems
      ensures r == CurrentAt(elements, cursor)
    {
      r := CurrentAt(elements, cursor);
    }

    /** LstK_FindByVidPid: the first element whose vendor and product ids
        both match, or ERROR_NO_MORE_ITEMS when none does. */
    method FindByVidPid(vid: uint32, pid: uint32) returns (r: Result<DevInfo>)
      ensures r.Ok? <==> exists k :: 0 <= k < |elements| && MatchesVidPid(elements[k], vid, pid)
      ensures r.Ok? ==> exists k :: 0 <= k < |elements| && elements[k] == r.value
                                    && MatchesVidPid(elements[k], vid, pid)
                                    && forall j :: 0 <= j < k ==> !MatchesVidPid(elements[j], vid, pid)
      ensures r.Err? ==> r.code == ErrorNoMoreItems
    {
      var k := 0;
      while k < |elements|
        invariant 0 <= k <= |elements|
        invariant forall j :: 0 <= j < k ==> !MatchesVidPid(elements[j], vid, pid)
      {
        if MatchesVidPid(elements[k], vid, pid) {
          return Ok(elements[k]);
        }
        k := k + 1;
      }
      r := Err(ErrorNoMoreItems);
    }

    /** LstK_Enumerate: calls the callback on each element in list order
        until it returns false, and returns the elements it was called on.
        The callback's context is whatever the closure captures. */
    method Enumerate(callback: DevInfo -> bool) returns (visited: seq<DevInfo>)
      ensures |visited| <= |elements| && visited == elements[..|visited|]
      ensures forall k :: 0 <= k < |visited| - 1 ==> callback(visited[k])
      ensures |visited| < |elements| ==> |visited| > 0 && !callback(visited[|visited| - 1])
      ensures (forall k :: 0 <= k < |elements| ==> callback(elements[k])) ==> visited == elements
    {
      visited := [];
      var k := 0;
      while k < |elements|
        invariant 0 <= k <= |elements|
        invariant visited == elements[..k]
        invariant forall j :: 0 <= j < k ==> callback(elements[j])
      {
        visited := visited + [elements[k]];
        if !callback(elements[k]) {
          return;
        }
        k := k + 1;
      }
    }

    /** LstK_AddDevInfo: the element joins the end of the list; the
        enumerator keeps its position. */
    method AddDevInfo(d: DevInfo)
      requires Valid() && WellFormed(d)
      modifies this
      ensures Valid()
      ensures elements == old(elements) + [d] && cursor == old(cursor)
      ensures Count() == old(Count()) + 1
    {
      elements := elements + [d];
    }

    /** LstK_RemoveDevInfo: removes the element from the list, or reports
        false and changes nothing when it is not in the list. */
    method RemoveDevInfo(d: DevInfo) returns (ok: bool)
      requires Valid()
      modifies this
      ensures Valid()
      ensures ok <==> d in old(elements)
      ensures ok ==> var j := FirstIndex(old(elements), d);
        elements == RemoveAt(old(elements), j) && cursor == AfterRemoval(old(cursor), j)
      ensures !ok ==> elements == old(elements) && cursor == old(cursor)
      ensures Count() == old(Count()) - (if ok then 1 else 0)
    {
      var j := 0;
      while j < |elements|
        invariant 0 <= j <= |elements|
        invariant forall k :: 0 <= k < j ==> elements[k] != d
      {
        if elements[j] == d {
          assert FirstIndex(elements, d) == j;
          RemovalKeepsCursorValid(cursor, |elements|, j);
          elements := RemoveAt(elements, j);
          cursor := AfterRemoval(cursor, j);
          return true;
        }
        j := j + 1;
      }
      ok := false;
    }

    /** LstK_Clone: a new, independent list with the same elements, its own
        enumerator before the first element, and every string field still
        within KLST_STRING_MAX_LEN. */
    method Clone() returns (dst: DevList)
      requires Valid()
      ensures fresh(dst) && dst.Valid()
      ensures dst.elements == elements && dst.cursor == BeforeFirst
      ensures dst.Count() == Count()
      ensures forall k | 0 <= k < |dst.elements| :: StringsFit(dst.elements[k])
    {
      dst := new DevList(elements);
    }
  }

  /** The enumerator cycle through the list API: after Reset, Count()
      MoveNext calls return the elements in list order, the next call
      returns nothing and leaves the enumerator after the last element, and
      the call after that wraps around onto the first element. */
  method PollCycle(l: DevList) returns (visited: seq<DevInfo>, passed: Option<DevInfo>, wrapped: Option<DevInfo>)
    requires l.Valid()
    modifies l`cursor
    ensures l.Valid() && l.elements == old(l.elements)
    ensures visited == l.elements && |visited| == l.Count()
    ensures passed == None
    ensures l.Count() > 0 ==> wrapped == Some(l.elements[0]) && l.cursor == At(0)
    ensures l.Count() == 0 ==> wrapped == None && l.cursor == AfterLast
  {
    var n := l.Count();
    l.Reset();
    visited := [];
    var k := 0;
    while k < n
      invariant 0 <= k <= n
      invariant l.Valid() && l.elements == old(l.elements) && l.Count() == n
      invariant l.cursor == Steps(BeforeFirst, n, k)
      invariant visited == l.elements[..k]
    {
      var r := l.MoveNext();
      StepsAdd(BeforeFirst, n, k, 1);
      VisitsInOrder(n, k + 1);
      visited := visited + [r.value];
      k := k + 1;
    }
    passed := l.MoveNext();
    StepsAdd(BeforeFirst, n, n, 1);
    PassesEnd(n);
    wrapped := l.MoveNext();
  }

  /** A clone is decoupled from its source: adding to the clone and moving
      its enumerator leave the source list and its enumerator as they were. */
  method CloneIsolation(src: DevList, d: DevInfo) returns (dst: DevList)
    requires src.Valid() && WellFormed(d)
    ensures fresh(dst) && dst.Valid()
    ensures src.elements == old(src.elements) && src.cursor == old(src.cursor)
    ensures dst.elements == src.elements + [d] && dst.cursor == At(0)
  {
    dst := src.Clone();
    dst.AddDevInfo(d);
    var first := dst.MoveNext();
  }
}
