/**
 * Reading the bus instances window by window into a list with a tail pointer (lib/sysfs.c:175-279,
 * lib/common.c:423-445).
 */
module BusInstances {
  import opened Wrappers

  const MAX_CNT_PER_READ: nat := 32
  const COUNTS: nat := 0x1_0000_0000

  /** The four values of a well-formed instance line. */
  datatype Instance = Instance(guid: string, typ: nat, eid: nat, upi: nat)

  /** A node of the list. */
  class Node {
    const value: Instance
    var next: Node?

    constructor (value: Instance)
      ensures this.value == value && next == null
    {
      this.value, next := value, null;
    }
  }

  ghost function Values(nodes: seq<Node>): (s: seq<Instance>)
    ensures |s| == |nodes| && forall k :: 0 <= k < |s| ==> s[k] == nodes[k].value
  {
    seq(|nodes|, k requires 0 <= k < |nodes| => nodes[k].value)
  }

  /** Where the list lives: its first and its last node. */
  class Access {
    var bi: Node?
    var tail: Node?
    ghost var spine: seq<Node>

    constructor ()
      ensures Valid() && Contents() == [] && fresh(Repr())
    {
      bi, tail, spine := null, null, [];
    }

    /** The nodes of the list. */
    ghost function Repr(): set<Node>
      reads this`spine
    {
      set n | n in spine
    }

    /** `bi` starts the chain, `tail` is its last node, and no node occurs twice. */
    ghost predicate Valid()
      reads this, spine
    {
      && (spine == [] <==> bi == null)
      && (spine != [] ==> bi == spine[0] && tail == spine[|spine| - 1] && tail.next == null)
      && (forall k :: 0 <= k < |spine| - 1 ==> spine[k].next == spine[k + 1])
      && (forall k, l :: 0 <= k < l < |spine| ==> spine[k] != spine[l])
    }

    ghost function Contents(): (s: seq<Instance>)
      reads this`spine
      ensures |s| == |spine|
    {
      Values(spine)
    }

    /** ub_add_bi: append behind the tail. */
    method Add(value: Instance)
      requires Valid()
      modifies this, spine
      ensures Valid() && fresh(Repr() - old(Repr()))
      ensures Contents() == old(Contents()) + [value]
      ensures tail != null && tail.value == value
    {
      var node := new Node(value);
      if bi != null {
        tail.next := node;
      } else {
        bi := node;
      }
      tail := node;
      spine := spine + [node];
    }

    /** A walk from the head along `next` meets the contents in order. */
    method Walk() returns (s: seq<Instance>)
      requires Valid()
      ensures s == Contents()
    {
      s := [];
      var n := bi;
      ghost var k := 0;
      while n != null
        invariant k <= |spine| && s == Contents()[..k]
        invariant n == if k < |spine| then spine[k] else null
        decreases |spine| - k
      {
        s := s + [n.value];
        n := n.next;
        k := k + 1;
      }
    }

    /** ub_parse_instance_sys: at most `cnt` lines of what the kernel serves from `start` on. */
    method ReadWindow(kernel: seq<Option<Instance>>, start: nat, cnt: nat)
      requires Valid()
      modifies this, spine
      ensures Valid() && fresh(Repr() - old(Repr()))
      ensures Contents() == old(Contents()) + Parseable(Window(kernel, start, cnt))
    {
      if cnt == 0 {
        assert Window(kernel, start, 0) == [];
        return;
      }
      var served := Serve(kernel, start);
      hide Valid, Contents, Parseable;
      var i := 0;
      while i < cnt && i < |served|
        invariant i <= cnt && i <= |served| && Valid() && fresh(Repr() - old(Repr()))
        invariant Contents() == old(Contents()) + Parseable(served[..i])
      {
        ParseableSnoc(served, i);
        if served[i].Some? {
          Add(served[i].value);
        }
        i := i + 1;
      }
      assert Window(kernel, start, cnt) == served[..i];
    }

    /** sysfs_get_bi: full windows, then the remainder. */
    method ReadAll(kernel: seq<Option<Instance>>, count: nat)
      requires Valid() && count < COUNTS
      modifies this, spine
      ensures Valid() && Contents() == old(Contents()) + Parseable(Window(kernel, 0, count))
      ensures count == |kernel| ==> Contents() == old(Contents()) + Parseable(kernel)
    {
      WholeWindow(kernel);
      hide Valid, Contents, Parseable, Window;
      var cycle, left := count / MAX_CNT_PER_READ, count % MAX_CNT_PER_READ;
      var i := 0;
      NothingYet(kernel, count, Contents());
      while i <= cycle
        invariant i <= cycle + 1 && Valid() && fresh(Repr() - old(Repr()))
        invariant Contents() == old(Contents()) + Parseable(Window(kernel, 0, Upto(count, i)))
      {
        NoWrap(count, i);
        WindowsTile(kernel, Upto(count, i), Upto(count, i + 1));
        if i != cycle {
          ReadWindow(kernel, i * MAX_CNT_PER_READ, MAX_CNT_PER_READ);
        } else {
          ReadWindow(kernel, i * MAX_CNT_PER_READ, left);
        }
        i := i + 1;
      }
    }
  }

  /** What the instance file gives after a start index was written to it. */
  function Serve(kernel: seq<Option<Instance>>, start: nat): seq<Option<Instance>> {
    if start <= |kernel| then kernel[start..] else []
  }

  /** The lines one window reads. */
  function Window(kernel: seq<Option<Instance>>, start: nat, cnt: nat): seq<Option<Instance>> {
    var served := Serve(kernel, start);
    if cnt <= |served| then served[..cnt] else served
  }

  /** The lines that parse, in order. */
  function Parseable(lines: seq<Option<Instance>>): seq<Instance> {
    if lines == [] then []
    else Parseable(lines[..|lines| - 1]) + if lines[|lines| - 1].Some? then [lines[|lines| - 1].value] else []
  }

  lemma ParseableSnoc(lines: seq<Option<Instance>>, i: nat)
    requires i < |lines|
    ensures Parseable(lines[..i + 1]) == Parseable(lines[..i]) + if lines[i].Some? then [lines[i].value] else []
  {
    assert lines[..i + 1][..i] == lines[..i];
  }

  lemma {:induction false} ParseableAppend(a: seq<Option<Instance>>, b: seq<Option<Instance>>)
    ensures Parseable(a + b) == Parseable(a) + Parseable(b)
  {
    if b == [] {
      assert a + b == a;
    } else {
      ParseableAppend(a, b[..|b| - 1]);
      assert (a + b)[..|a + b| - 1] == a + b[..|b| - 1];
    }
  }

  /** Line by line: one that parses gives its instance, in its place and once; any other gives nothing. */
  lemma ParseableCons(line: Option<Instance>, rest: seq<Option<Instance>>)
    ensures Parseable([line] + rest) == (if line.Some? then [line.value] else []) + Parseable(rest)
  {
    ParseableAppend([line], rest);
    assert [line][..0] == [];
  }

  /** The first index that the first `i` windows leave unread. */
  function Upto(count: nat, i: nat): nat {
    if i <= count / MAX_CNT_PER_READ then i * MAX_CNT_PER_READ else count
  }

  /** No window start leaves the 32-bit range, and the windows end where the next one starts. */
  lemma NoWrap(count: nat, i: nat)
    requires count < COUNTS && i <= count / MAX_CNT_PER_READ
    ensures i * MAX_CNT_PER_READ <= count < COUNTS
    ensures Upto(count, i + 1) ==
      i * MAX_CNT_PER_READ + if i != count / MAX_CNT_PER_READ then MAX_CNT_PER_READ else count % MAX_CNT_PER_READ
  {
  }

  lemma NothingYet(kernel: seq<Option<Instance>>, count: nat, s: seq<Instance>)
    ensures s + Parseable(Window(kernel, 0, Upto(count, 0))) == s
  {
    assert Window(kernel, 0, 0) == [];
  }

  /** Two windows side by side read what one wide window reads: nothing is lost and nothing read twice. */
  lemma WindowsTile(kernel: seq<Option<Instance>>, a: nat, b: nat)
    requires a <= b
    ensures Parseable(Window(kernel, 0, b)) == Parseable(Window(kernel, 0, a)) + Parseable(Window(kernel, a, b - a))
  {
    var x, y := Window(kernel, 0, a), Window(kernel, a, b - a);
    assert kernel[0..] == kernel;
    assert Window(kernel, 0, b) == x + y;
    ParseableAppend(x, y);
  }

  /** When the kernel has as many lines as it counts, the list is every line that parses, once. */
  lemma WholeWindow(kernel: seq<Option<Instance>>)
    ensures Window(kernel, 0, |kernel|) == kernel
  {
  }
}
