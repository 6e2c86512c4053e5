/** The bytes of text nodes, cut from large chunks that the nodes of a document share. */
module TextSlab {
  type Byte = int

  const SLAB_SIZE := 64 * 1024
  const MIN_GROWN := 64

  /** A slice of a buffer: `len` bytes in use from `off` on, room for `cap`. */
  datatype Slice = Nil | Slice(buf: array<Byte>, off: nat, len: nat, cap: nat)

  function Len(s: Slice): nat {
    if s.Nil? then 0 else s.len
  }

  function Cap(s: Slice): nat {
    if s.Nil? then 0 else s.cap
  }

  ghost predicate Within(s: Slice) {
    s.Slice? ==> s.len <= s.cap && 0 < s.cap && s.off + s.cap <= s.buf.Length
  }

  /** No byte belongs to both, not even spare room. */
  ghost predicate Apart(a: Slice, b: Slice) {
    a.Nil? || b.Nil? || a.buf != b.buf || a.off + a.cap <= b.off || b.off + b.cap <= a.off
  }

  ghost function Contents(s: Slice): seq<Byte>
    requires Within(s)
    reads if s.Nil? then {} else {s.buf}
  {
    if s.Nil? then [] else s.buf[s.off..s.off + s.len]
  }

  datatype Op = Create(value: seq<Byte>) | Append(id: nat, b: seq<Byte>)

  /** Something is appended to a node only if there is one. */
  predicate Possible(n: nat, op: Op) {
    op.Append? ==> op.id < n
  }

  function Done(contents: seq<seq<Byte>>, op: Op): seq<seq<Byte>>
    requires Possible(|contents|, op)
  {
    match op
    case Create(value) => contents + [value]
    case Append(id, b) => contents[id := contents[id] + b]
  }

  predicate Runnable(n: nat, ops: seq<Op>)
    decreases ops
  {
    ops == [] || (Possible(n, ops[0]) && Runnable(if ops[0].Create? then n + 1 else n, ops[1..]))
  }

  /** The contents once each operation has done what it says. */
  function After(contents: seq<seq<Byte>>, ops: seq<Op>): seq<seq<Byte>>
    requires Runnable(|contents|, ops)
    decreases ops
  {
    if ops == [] then contents else After(Done(contents, ops[0]), ops[1..])
  }

  class Document {
    /** The chunk being cut up, and where its free part starts. */
    var slab: array?<Byte>
    var slabOff: nat
    /** The content of every text node. */
    var texts: seq<Slice>
    /** All buffers handed out. */
    ghost var bufs: set<array<Byte>>

    constructor ()
      ensures Valid() && texts == [] && fresh(bufs)
    {
      slab, slabOff, texts, bufs := null, 0, [], {};
    }

    /** The slice is in bounds, and apart from what is still free. */
    ghost predicate Owned(s: Slice)
      reads this
    {
      Within(s) && (s.Slice? ==> s.buf in bufs && (s.buf == slab ==> s.off + s.cap <= slabOff))
    }

    ghost predicate AllApart(ts: seq<Slice>)
      reads this
    {
      && (forall i :: 0 <= i < |ts| ==> Owned(ts[i]))
      && (forall i, j :: 0 <= i < j < |ts| ==> Apart(ts[i], ts[j]))
    }

    ghost predicate Valid()
      reads this
    {
      (slab != null ==> slab in bufs && slabOff <= slab.Length == SLAB_SIZE) && AllApart(texts)
    }

    lemma Replaced(id: nat, content: Slice)
      requires AllApart(texts) && id < |texts| && Owned(content)
      requires forall i :: 0 <= i < |texts| && i != id ==> Apart(texts[i], content)
      ensures AllApart(texts[id := content])
    {
    }

    /** `allocTextContent` */
    method AllocTextContent(size: nat) returns (s: Slice)
      requires Valid()
      modifies this`slab, this`slabOff, this`bufs
      ensures Valid() && Owned(s) && fresh(bufs - old(bufs)) && old(bufs) <= bufs
      ensures Len(s) == Cap(s) == size
      ensures forall i :: 0 <= i < |texts| ==> Apart(texts[i], s)
      ensures s.Slice? ==> s.buf in bufs && (s.buf == slab ==> s.off + s.cap <= slabOff)
      ensures s.Slice? <==> size > 0
      ensures size > 65536 ==> fresh(s.buf) && s.buf.Length == size && slab == old(slab) && slabOff == old(slabOff)
      ensures 0 < size <= 65536 ==> s.buf == slab && s.buf.Length == 65536 && slabOff == s.off + size
      ensures 0 < size <= 65536 && old(slab) != null && size <= 65536 - old(slabOff) ==>
        slab == old(slab) && s.off == old(slabOff)
    {
      if size == 0 {
        return Nil;
      }
      if size > SLAB_SIZE {
        var own := new Byte[size];
        bufs := bufs + {own};
        return Slice(own, 0, size, size);
      }
      if slab == null || slab.Length - slabOff < size {
        slab, slabOff := new Byte[SLAB_SIZE], 0;
        bufs := bufs + {slab};
      }
      s := Slice(slab, slabOff, size, size);
      slabOff := slabOff + size;
    }

    /** `copy`: the bytes go to the slice from position `at` on; nodes apart from it keep their content. */
    method CopyTo(s: Slice, at: nat, value: seq<Byte>)
      requires Valid() && s.Slice? && Owned(s) && at + |value| <= s.cap
      modifies s.buf
      ensures Valid()
      ensures s.buf[s.off + at..s.off + at + |value|] == value && s.buf[s.off..s.off + at] == old(s.buf[s.off..s.off + at])
      ensures forall i :: 0 <= i < |texts| && Apart(texts[i], s) ==> Contents(texts[i]) == old(Contents(texts[i]))
    {
      var base := s.off + at;
      for i := 0 to |value|
        invariant forall k :: 0 <= k < i ==> s.buf[base + k] == value[k]
        invariant forall k :: 0 <= k < s.buf.Length && !(base <= k < base + i) ==> s.buf[k] == old(s.buf[k])
      {
        s.buf[base + i] := value[i];
      }
    }

    /** `CreateText`: a new node with a copy of the value; no other node changes. */
    method CreateText(value: seq<Byte>) returns (id: nat)
      requires Valid()
      modifies this, bufs
      ensures Valid() && fresh(bufs - old(bufs)) && old(bufs) <= bufs
      ensures id == |old(texts)| && |texts| == id + 1 && texts[..id] == old(texts)
      ensures Contents(texts[id]) == value
      ensures forall i :: 0 <= i < id ==> Contents(texts[i]) == old(Contents(texts[i]))
    {
      id := |texts|;
      var content := AllocTextContent(|value|);
      if content.Slice? {
        CopyTo(content, 0, value);
      }
      texts := texts + [content];
    }

    /** `growOwnedTextContent` for the content of a node: the same slice if it has room, else a larger one with a copy. */
    method GrowOwnedTextContent(id: nat, extra: nat) returns (next: Slice)
      requires Valid() && id < |texts|
      modifies this`slab, this`slabOff, this`bufs, bufs
      ensures Valid() && Owned(next) && fresh(bufs - old(bufs)) && old(bufs) <= bufs
      ensures Len(next) == Len(texts[id]) && (extra > 0 ==> next.Slice? && Cap(next) >= Len(next) + extra)
      ensures Contents(next) == Contents(texts[id])
      ensures forall i :: 0 <= i < |texts| ==> Contents(texts[i]) == old(Contents(texts[i]))
      ensures forall i :: 0 <= i < |texts| && i != id ==> Apart(texts[i], next)
      ensures Cap(texts[id]) >= Len(texts[id]) + extra ==> next == texts[id]
      ensures Cap(texts[id]) < Len(texts[id]) + extra ==> Apart(texts[id], next)
      ensures Cap(texts[id]) < Len(texts[id]) + extra ==>
        var need, twice := Len(texts[id]) + extra, 2 * Cap(texts[id]);
        Cap(next) == if need > twice then (if need > 64 then need else 64) else if twice > 64 then twice else 64
    {
      var cur := texts[id];
      if extra == 0 || Cap(cur) >= Len(cur) + extra {
        return cur;
      }
      var need := Len(cur) + extra;
      var newCap := if Cap(cur) * 2 > need then Cap(cur) * 2 else need;
      if newCap < MIN_GROWN {
        newCap := MIN_GROWN;
      }
      next := Moved(id, newCap);
    }

    /** A larger slice with a copy of the bytes of a node. */
    method Moved(id: nat, newCap: nat) returns (next: Slice)
      requires Valid() && id < |texts| && Len(texts[id]) < newCap
      modifies this`slab, this`slabOff, this`bufs, bufs
      ensures Valid() && Owned(next) && fresh(bufs - old(bufs)) && old(bufs) <= bufs
      ensures next.Slice? && next.cap == newCap && next.len == Len(texts[id]) && Contents(next) == Contents(texts[id])
      ensures forall i :: 0 <= i < |texts| ==> Contents(texts[i]) == old(Contents(texts[i])) && Apart(texts[i], next)
    {
      next := AllocTextContent(newCap);
      next := next.(len := Len(texts[id]));
      if texts[id].Slice? {
        var cur := texts[id];
        CopyTo(next, 0, cur.buf[cur.off..cur.off + cur.len]);
      }
    }

    /** `AppendText`: the node's content is what was there and the new bytes; no other node changes. */
    method AppendText(id: nat, b: seq<Byte>)
      requires Valid() && id < |texts|
      modifies this, bufs
      ensures Valid() && fresh(bufs - old(bufs)) && old(bufs) <= bufs
      ensures |texts| == |old(texts)| && Contents(texts[id]) == old(Contents(texts[id])) + b
      ensures forall i :: 0 <= i < |texts| && i != id ==>
        texts[i] == old(texts[i]) && Contents(texts[i]) == old(Contents(texts[i]))
    {
      var content := GrowOwnedTextContent(id, |b|);
      SetContent(id, content);
      AppendWithin(id, b);
    }

    method SetContent(id: nat, content: Slice)
      requires Valid() && id < |texts| && Owned(content)
      requires forall i :: 0 <= i < |texts| && i != id ==> Apart(texts[i], content)
      modifies this`texts
      ensures Valid() && texts == old(texts)[id := content]
    {
      Replaced(id, content);
      texts := texts[id := content];
    }

    /** `append` where there is room. */
    method AppendWithin(id: nat, b: seq<Byte>)
      requires Valid() && id < |texts| && Len(texts[id]) + |b| <= Cap(texts[id])
      modifies this`texts, bufs
      ensures Valid() && |texts| == |old(texts)|
      ensures Contents(texts[id]) == old(Contents(texts[id])) + b
      ensures forall i :: 0 <= i < |texts| && i != id ==>
        texts[i] == old(texts[i]) && Contents(texts[i]) == old(Contents(texts[i]))
    {
      var content := texts[id];
      if content.Nil? {
        return;
      }
      CopyTo(content, content.len, b);
      SetContent(id, content.(len := content.len + |b|));
      assert content.buf[content.off..content.off + content.len + |b|]
        == content.buf[content.off..content.off + content.len]
         + content.buf[content.off + content.len..content.off + content.len + |b|];
    }

    /** Every node's content. */
    ghost function All(): (r: seq<seq<Byte>>)
      requires Valid()
      reads this, bufs
      ensures |r| == |texts| && forall i :: 0 <= i < |r| ==> r[i] == Contents(texts[i])
    {
      seq(|texts|, i requires 0 <= i < |texts| reads this, bufs => if Owned(texts[i]) then Contents(texts[i]) else [])
    }

    method Perform(op: Op)
      requires Valid() && Possible(|texts|, op)
      modifies this, bufs
      ensures Valid() && fresh(bufs - old(bufs)) && old(bufs) <= bufs && All() == Done(old(All()), op)
    {
      hide AllApart, Contents;
      match op {
        case Create(value) =>
          var id := CreateText(value);
          assert texts[..id] == old(texts);
          assert forall i :: 0 <= i < id ==> texts[i] == texts[..id][i];
        case Append(id, b) =>
          AppendText(id, b);
      }
    }

    /** Whatever is created and appended in whatever order, each node holds just what was put into it. */
    method Run(ops: seq<Op>)
      requires Valid() && Runnable(|texts|, ops)
      modifies this, bufs
      ensures Valid() && fresh(bufs - old(bufs)) && All() == After(old(All()), ops)
    {
      hide AllApart, Contents, Done;
      for k := 0 to |ops|
        invariant Valid() && fresh(bufs - old(bufs)) && Runnable(|All()|, ops[k..])
        invariant After(All(), ops[k..]) == After(old(All()), ops)
      {
        assert ops[k..][1..] == ops[k + 1..] && ops[k..][0] == ops[k];
        DoneLength(All(), ops[k]);
        Perform(ops[k]);
      }
    }
  }

  lemma DoneLength(contents: seq<seq<Byte>>, op: Op)
    requires Possible(|contents|, op)
    ensures |Done(contents, op)| == if op.Create? then |contents| + 1 else |contents|
  {
  }
}
