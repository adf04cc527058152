/**
 The driver's four-slot socket table (`sockets` in cc3000_ifc.c).

 Each slot holds a co-processor socket descriptor or `Free` (-1). The table
 is searched front to back; both "is this descriptor known" and "replace this
 descriptor" act on the FIRST matching slot.
 */
module SocketTable {

  const MaxSockets: nat := 4

  /** The value of an unassigned slot. */
  const Free: int := -1

  type Table = t: seq<int> | |t| == MaxSockets witness [-1, -1, -1, -1]

  /** The table as the driver declares it: every slot free. */
  function Initial(): (t: Table)
    ensures forall i :: 0 <= i < |t| ==> t[i] == Free
    ensures Distinct(t)
  {
    [Free, Free, Free, Free]
  }

  /** No descriptor other than `Free` sits in two slots. */
  ghost predicate Distinct(t: seq<int>) {
    forall i, j :: 0 <= i < j < |t| && t[i] != Free ==> t[i] != t[j]
  }

  /** The first index at or after `from` whose slot holds `v`, or -1. */
  function FindFrom(t: seq<int>, v: int, from: nat): (r: int)
    requires from <= |t|
    ensures r == -1 <==> forall j :: from <= j < |t| ==> t[j] != v
    ensures r != -1 ==> from <= r < |t| && t[r] == v
    ensures r != -1 ==> forall j :: from <= j < r ==> t[j] != v
    decreases |t| - from
  {
    if from == |t| then -1
    else if t[from] == v then from
    else FindFrom(t, v, from + 1)
  }

  /** `cc3000_is_socket_valid`: whether some slot holds `s`. Because a free slot
      holds -1, asking about -1 asks whether the table has room. */
  function IsSocketValid(t: Table, s: int): (r: bool)
    ensures r <==> s in t
    ensures s == Free ==> (r <==> exists i :: 0 <= i < MaxSockets && t[i] == Free)
  {
    FindFrom(t, s, 0) != -1
  }

  /** The index `cc3000_handle_socket` returns, and the table it leaves. */
  datatype Handled = Handled(index: int, table: Table)

  /** `cc3000_handle_socket(v, r)`: the first slot holding `v` is overwritten
      with `r` and its index returned; with no such slot the result is -1 and
      the table is untouched. */
  function HandleSocket(t: Table, v: int, r: int): (h: Handled)
    ensures h.index == -1 <==> v !in t
    ensures h.index == -1 ==> h.table == t
    ensures h.index != -1 ==>
      && 0 <= h.index < MaxSockets
      && t[h.index] == v
      && (forall j :: 0 <= j < h.index ==> t[j] != v)
      && h.table == t[h.index := r]
  {
    var i := FindFrom(t, v, 0);
    if i == -1 then Handled(-1, t) else Handled(i, t[i := r])
  }

  /** Installing a new descriptor `d` (`handle_socket(-1, d)`) keeps live
      descriptors distinct; it places `d` when a slot is free and otherwise
      leaves the table exactly as it was. */
  lemma AssignKeepsDistinct(t: Table, d: int)
    requires Distinct(t) && d != Free && d !in t
    ensures Distinct(HandleSocket(t, Free, d).table)
    ensures Free in t ==> d in HandleSocket(t, Free, d).table
    ensures Free !in t ==> HandleSocket(t, Free, d).table == t
  {
    var h := HandleSocket(t, Free, d);
    if h.index != -1 {
      forall i, j | 0 <= i < j < |h.table| && h.table[i] != Free
        ensures h.table[i] != h.table[j]
      {
        if i == h.index {
          assert h.table[j] == t[j];
        } else if j == h.index {
          assert h.table[i] == t[i];
        }
      }
      assert h.table[h.index] == d;
    }
  }

  /** Freeing descriptor `d` (`handle_socket(d, -1)`) keeps live descriptors
      distinct, and afterwards `d` is no longer valid. */
  lemma ReleaseKeepsDistinct(t: Table, d: int)
    requires Distinct(t) && d != Free
    ensures Distinct(HandleSocket(t, d, Free).table)
    ensures d !in HandleSocket(t, d, Free).table
    ensures forall e :: e != d && e in t ==> e in HandleSocket(t, d, Free).table
  {
    var h := HandleSocket(t, d, Free);
    if h.index != -1 {
      forall j | 0 <= j < |h.table|
        ensures h.table[j] != d
      {
        if j != h.index {
          assert t[j] != d;
        }
      }
      forall e | e != d && e in t
        ensures e in h.table
      {
        var k :| 0 <= k < |t| && t[k] == e;
        assert h.table[k] == e;
      }
    }
  }

  /** A slot freed by a release is available to the next assignment: the next
      descriptor is installed at that slot or at an earlier free one. */
  lemma ReleaseThenAssignReuses(t: Table, d: int, e: int)
    requires d != Free && d in t
    ensures var released := HandleSocket(t, d, Free);
      var reused := HandleSocket(released.table, Free, e);
      0 <= reused.index <= released.index
  {
    var released := HandleSocket(t, d, Free);
    assert released.table[released.index] == Free;
  }
}
