/** The entries of an archive as the library keeps them: a singly linked list with its last node and
    its length cached. */
module EntryLists {
  import opened ByteStrings
  import opened PakFormat

  class Entry {
    var row: Row
    var next: Entry?

    constructor (row: Row)
      ensures this.row == row && next == null
    {
      this.row, next := row, null;
    }
  }

  /** The position of the first row with this name; the number of rows if there is none. */
  function IndexOf(rows: seq<Row>, name: seq<byte>): (i: nat)
    ensures i <= |rows|
    ensures i < |rows| ==> rows[i].name == name
    ensures forall k :: 0 <= k < i ==> rows[k].name != name
  {
    if rows == [] || rows[0].name == name then 0 else 1 + IndexOf(rows[1..], name)
  }

  lemma IndexOfIs(rows: seq<Row>, name: seq<byte>, i: nat)
    requires i <= |rows| && (i < |rows| ==> rows[i].name == name)
    requires forall k :: 0 <= k < i ==> rows[k].name != name
    ensures IndexOf(rows, name) == i
  {}

  class EntryList {
    var head: Entry?
    var tail: Entry?
    var count: nat

    /** The entries in directory order. */
    ghost var nodes: seq<Entry>

    /** The list is what `nodes` says: linked in order, ended, and with its last node cached. */
    ghost predicate ListValid()
      reads this, nodes
    {
      && count == |nodes|
      && (nodes == [] ==> head == null && tail == null)
      && (nodes != [] ==> head == nodes[0] && tail == nodes[|nodes| - 1] && nodes[|nodes| - 1].next == null)
      && (forall i :: 0 <= i < |nodes| - 1 ==> nodes[i].next == nodes[i + 1])
      && (forall i, j :: 0 <= i < j < |nodes| ==> nodes[i] != nodes[j])
    }

    ghost function Rows(): (r: seq<Row>)
      reads this, nodes
      ensures |r| == |nodes| && forall i :: 0 <= i < |nodes| ==> r[i] == nodes[i].row
    {
      seq(|nodes|, i requires 0 <= i < |nodes| reads this, nodes => nodes[i].row)
    }

    constructor ()
      ensures ListValid() && nodes == [] && Rows() == []
    {
      head, tail, count, nodes := null, null, 0, [];
    }

    /** Walking the list from node to node visits the rows in order. */
    lemma Walk(i: nat)
      requires ListValid() && i <= |nodes|
      ensures i == 0 ==> head == if nodes == [] then null else nodes[0]
      ensures i < |nodes| ==> nodes[i].row == Rows()[i] && nodes[i].next == if i + 1 < |nodes| then nodes[i + 1]
        else null
    {}

    /** Appends a node at the cached tail. */
    method Link(entry: Entry)
      requires ListValid() && entry !in nodes && entry.next == null
      modifies this, nodes`next
      ensures ListValid() && nodes == old(nodes) + [entry] && Rows() == old(Rows()) + [old(entry.row)]
    {
      if tail == null {
        head := entry;
      } else {
        tail.next := entry;
      }
      tail := entry;
      count := count + 1;
      nodes := nodes + [entry];
    }

    method Find(name: seq<byte>) returns (entry: Entry?, ghost i: nat)
      requires ListValid()
      ensures i == IndexOf(Rows(), name)
      ensures if IndexOf(Rows(), name) < |nodes| then entry == nodes[IndexOf(Rows(), name)] else entry == null
    {
      entry := head;
      i := 0;
      while entry != null
        invariant i <= |nodes| && (if i < |nodes| then entry == nodes[i] else entry == null)
        invariant forall k :: 0 <= k < i ==> nodes[k].row.name != name
        decreases |nodes| - i
      {
        if entry.row.name == name { break; }
        entry := entry.next;
        i := i + 1;
      }
      IndexOfIs(Rows(), name, i);
    }

    /** The entry at a position, if there are that many. */
    method At(index: nat) returns (entry: Entry?)
      requires ListValid()
      ensures entry == if index < |nodes| then nodes[index] else null
    {
      if index >= count { return null; }
      entry := head;
      var i := 0;
      while i < index
        invariant i <= index && entry == nodes[i]
      {
        entry := entry.next;
        i := i + 1;
      }
    }

    /** Takes the node at position i, which follows prev, out of the list. */
    method Bypass(prev: Entry?, current: Entry, ghost i: nat)
      requires ListValid() && i < |nodes| && current == nodes[i]
      requires if i == 0 then prev == null else prev == nodes[i - 1]
      modifies this, nodes`next
      ensures ListValid() && nodes == old(nodes)[..i] + old(nodes)[i + 1..]
    {
      if prev == null {
        head := current.next;
      } else {
        prev.next := current.next;
      }
      if tail == current {
        tail := prev;
      }
      count := count - 1;
      ghost var was := nodes;
      nodes := nodes[..i] + nodes[i + 1..];
      assert forall k :: 0 <= k < |nodes| ==> nodes[k] == was[if k < i then k else k + 1];
    }

    lemma RowsCut(rows: seq<Row>, was: seq<Entry>, i: nat)
      requires |rows| == |was| && forall k :: 0 <= k < |was| ==> was[k].row == rows[k]
      requires i < |was| && nodes == was[..i] + was[i + 1..]
      ensures Rows() == rows[..i] + rows[i + 1..]
    {}

    /** The first node with this name and the one before it. */
    method FindWithPrevious(name: seq<byte>) returns (prev: Entry?, current: Entry?, ghost i: nat)
      requires ListValid()
      ensures i == IndexOf(Rows(), name)
      ensures if IndexOf(Rows(), name) < |nodes| then current == nodes[IndexOf(Rows(), name)] else current == null
      ensures if i == 0 then prev == null else prev == nodes[i - 1]
    {
      prev, current, i := null, head, 0;
      while current != null
        invariant i <= |nodes| && (if i < |nodes| then current == nodes[i] else current == null)
        invariant if i == 0 then prev == null else prev == nodes[i - 1]
        invariant forall k :: 0 <= k < i ==> nodes[k].row.name != name
        decreases |nodes| - i
      {
        if current.row.name == name { break; }
        prev := current;
        current := current.next;
        i := i + 1;
      }
      IndexOfIs(Rows(), name, i);
    }

    /** Removes the first entry with this name. */
    method Unlink(name: seq<byte>) returns (found: bool)
      requires ListValid()
      modifies this, nodes`next
      ensures ListValid()
      ensures var i := IndexOf(old(Rows()), name);
              && (found <==> i < |old(nodes)|)
              && (found ==>
                    nodes == old(nodes)[..i] + old(nodes)[i + 1..] && Rows() == old(Rows())[..i] + old(Rows())[i + 1..])
              && (!found ==> nodes == old(nodes) && Rows() == old(Rows()))
    {
      hide ListValid, IndexOf;
      var prev, current, i := FindWithPrevious(name);
      if current == null {
        return false;
      }
      ghost var rows, was := Rows(), nodes;
      Bypass(prev, current, i);
      RowsCut(rows, was, i);
      return true;
    }

    /** Gives the node a new row, in place. */
    method SetRow(entry: Entry, row: Row, ghost i: nat)
      requires ListValid() && i < |nodes| && entry == nodes[i]
      modifies entry`row
      ensures ListValid() && Rows() == old(Rows())[i := row]
    {
      entry.row := row;
    }

    /** Installs one offset per entry, in list order. */
    method SetOffsets(offsets: array<nat>)
      requires ListValid() && offsets.Length == |nodes|
      modifies nodes`row
      ensures ListValid() && Rows() == WithOffsets(old(Rows()), offsets[..])
    {
      var current := head;
      var i := 0;
      while current != null
        invariant i <= |nodes| && (if i < |nodes| then current == nodes[i] else current == null)
        invariant forall k :: 0 <= k < |nodes| ==>
          nodes[k].row == if k < i then old(nodes[k].row).(offset := offsets[k]) else old(nodes[k].row)
        decreases |nodes| - i
      {
        current.row := current.row.(offset := offsets[i]);
        current := current.next;
        i := i + 1;
      }
    }

    /** The present offsets, in list order. */
    method Offsets() returns (offsets: array<nat>)
      requires ListValid()
      ensures fresh(offsets) && offsets.Length == |nodes|
      ensures forall k :: 0 <= k < |nodes| ==> offsets[k] == nodes[k].row.offset
    {
      offsets := new nat[count];
      var current := head;
      var i := 0;
      while current != null
        invariant i <= |nodes| && (if i < |nodes| then current == nodes[i] else current == null)
        invariant forall k :: 0 <= k < i ==> offsets[k] == nodes[k].row.offset
        decreases |nodes| - i
      {
        offsets[i] := current.row.offset;
        current := current.next;
        i := i + 1;
      }
    }

    /** The rows in list order. */
    method Snapshot() returns (rows: seq<Row>)
      requires ListValid()
      ensures rows == Rows()
    {
      rows := [];
      var current := head;
      while current != null
        invariant |rows| <= |nodes| && (if |rows| < |nodes| then current == nodes[|rows|] else current == null)
        invariant forall k :: 0 <= k < |rows| ==> rows[k] == nodes[k].row
        decreases |nodes| - |rows|
      {
        rows := rows + [current.row];
        current := current.next;
      }
    }

    /** Drops what was staged, in place. */
    method ClearStaged()
      requires ListValid()
      modifies nodes`row
      ensures ListValid() && Rows() == Unstaged(old(Rows()))
    {
      var current := head;
      ghost var i := 0;
      while current != null
        invariant i <= |nodes| && (if i < |nodes| then current == nodes[i] else current == null)
        invariant forall k :: 0 <= k < |nodes| ==>
          nodes[k].row == if k < i then old(nodes[k].row).(source := None, data := None) else old(nodes[k].row)
        decreases |nodes| - i
      {
        current.row := current.row.(source := None, data := None);
        current := current.next;
        i := i + 1;
      }
    }
  }

  function WithOffsets(rows: seq<Row>, offsets: seq<nat>): (r: seq<Row>)
    requires |rows| == |offsets|
    ensures |r| == |rows| && forall i :: 0 <= i < |rows| ==> r[i] == rows[i].(offset := offsets[i])
  {
    seq(|rows|, i requires 0 <= i < |rows| => rows[i].(offset := offsets[i]))
  }

  function Unstaged(rows: seq<Row>): (r: seq<Row>)
    ensures |r| == |rows| && forall i :: 0 <= i < |rows| ==> r[i] == rows[i].(source := None, data := None)
  {
    seq(|rows|, i requires 0 <= i < |rows| => rows[i].(source := None, data := None))
  }
}
