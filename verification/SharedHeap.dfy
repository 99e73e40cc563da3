/**
 The storage of arrays in array.c: an RArray is embedded, owns a heap buffer, or is a
 window into the buffer of a reference-counted shared root.  This module holds the
 global invariant over the whole population of arrays, and the helpers that make,
 cancel and count sharing and that give an array the room to grow.
 */
module SharedHeap {

  datatype Value = Nil | Obj(id: nat)

  const EMBED_LEN_MAX: nat := 3
  const DEFAULT_SIZE: nat := 16

  // struct RArray.  as.heap.ptr is a buffer and an offset into it; as.heap.aux is the capacity, the
  // reference count (of a root) or the shared root.
  class RArray {
    const hidden: bool
    var embed: bool
    var shared: bool
    var isRoot: bool
    var frozen: bool
    var cells: seq<Value>
    var ptr: array<Value>
    var off: nat
    var len: nat
    var capa: nat
    var root: RArray?
    ghost var sharers: set<RArray>

    // An empty embedded array: ary_alloc, and NEWOBJ_OF for a hidden root
    constructor (hidden: bool)
      ensures this.hidden == hidden && embed && !shared && !isRoot && frozen == false && root == null
      ensures |cells| == EMBED_LEN_MAX && len == 0 && off == 0 && capa == 0 && sharers == {}
      ensures fresh(ptr)
    {
      this.hidden := hidden;
      embed, shared, isRoot, frozen := true, false, false, false;
      cells, ptr, off, len, capa, root := [Nil, Nil, Nil], new Value[0], 0, 0, 0, null;
      sharers := {};
    }

    ghost predicate Owns()
      reads this
    {
      !embed && !shared
    }

    // The elements Ruby sees.
    ghost function Elts(): seq<Value>
      reads this, ptr
    {
      if embed then (if len <= |cells| then cells[..len] else [])
      else if off + len <= ptr.Length then ptr[off..off + len]
      else []
    }
  }

  // An array as Ruby sees it.
  datatype Plain = Plain(elts: seq<Value>, frozen: bool)

  class ObjectSpace {
    ghost var all: set<RArray>
    ghost var repr: set<object>
    // The whole population as Ruby sees it.
    ghost var model: map<RArray, Plain>

    ghost predicate Ok(a: RArray)
      reads this, repr
    {
      && Shape(a)
      && (a in model <==> !a.hidden)
      && (a in model ==> model[a] == Plain(a.Elts(), a.frozen))
    }

    // An embedded array is small, an owner starts at the start of its buffer, a window lies inside the
    // buffer of its root, and a root counts at least its windows (and itself, if Ruby sees it).
    ghost predicate Shape(a: RArray)
      reads this`all, this`repr, repr
    {
      && a in repr && a.ptr in repr && |a.cells| == EMBED_LEN_MAX
      && (a.embed ==> !a.shared && a.len <= EMBED_LEN_MAX)
      && (a.isRoot ==> !a.shared && a.frozen)
      && (a.hidden ==> a.isRoot)
      && (a.Owns() ==> a.off == 0 && a.len <= a.ptr.Length)
      && (a.Owns() && !a.isRoot ==> a.capa == a.ptr.Length)
      && (a.Owns() && a.isRoot ==>
            a.len == a.ptr.Length && |a.sharers| + (if a.hidden then 0 else 1) <= a.capa)
      && (a.shared ==>
            && a.root != null && a.root in all && a.root in repr && a.root.isRoot && !a.root.embed && a in a.root.sharers
            && a.ptr == a.root.ptr && a.off + a.len <= a.ptr.Length && a.root.len == a.ptr.Length)
    }

    // Two arrays that own their buffers own different ones.
    ghost predicate Apart()
      reads this`all, all
    {
      forall a, b {:trigger a in all, b in all} :: a in all && b in all && a.Owns() && b.Owns() && a.ptr == b.ptr ==> a == b
    }

    ghost predicate Valid()
      reads this, repr
    {
      && all <= repr && model.Keys <= all
      && (forall a {:trigger Ok(a)} :: a in all ==> Ok(a))
      && Apart()
    }

    ghost predicate Visible(a: RArray)
      reads this
    {
      a in all && !a.hidden
    }

    // No other array that Ruby sees uses the buffer of `a`.
    ghost predicate Sole(a: RArray)
      reads this, all, a
    {
      forall b :: b in all && b != a && !b.hidden && !b.embed ==> b.ptr != a.ptr
    }

    // The population is told of a change to `a`.
    ghost method Settle(a: RArray)
      requires all <= repr && model.Keys <= all && a in model && !a.hidden && Apart() && Shape(a)
      requires forall b {:trigger Ok(b)} :: b in all && b != a ==> Ok(b)
      modifies this`model
      ensures Valid() && model == old(model)[a := Plain(a.Elts(), a.frozen)]
    {
      hide RArray.Elts;
      model := model[a := Plain(a.Elts(), a.frozen)];
      forall b | b in all ensures Ok(b) {
        assert b != a ==> old(Ok(b));
      }
    }

    // An occupied root means a sole owner.
    lemma SoleOwner(a: RArray)
      requires Valid() && Visible(a) && !a.frozen && !a.embed
      requires a.shared ==> Ok(a) && a.root.capa == 1
      ensures Sole(a)
    {
      assert Ok(a);
      forall b | b in all && b != a && !b.hidden && !b.embed
        ensures b.ptr != a.ptr
      {
        assert Ok(b);
        var owner := if a.shared then a.root else a;
        var other := if b.shared then b.root else b;
        assert Ok(owner) && Ok(other);
        assert owner.Owns() && other.Owns();
        if a.shared {
          OneSharer(a.root.sharers, a, b);
        }
      }
    }

    lemma OneSharer(s: set<RArray>, a: RArray, b: RArray)
      requires a in s && |s| <= 1
      ensures b in s ==> b == a
    {
      assert |s - {a}| == 0;
      assert b in s && b != a ==> b in s - {a};
    }

    constructor ()
      ensures Valid() && model == map[] && all == {} && repr == {}
    {
      all, repr, model := {}, {}, map[];
    }

    // No other array, hidden or not, uses the buffer of `a`: it may be freed or moved.
    ghost predicate Unaliased(a: RArray)
      reads this, all, a
    {
      forall b :: b in all && b != a && !b.embed ==> b.ptr != a.ptr
    }

    lemma OwnerUnaliased(a: RArray)
      requires Valid() && Visible(a) && !a.frozen && a.Owns()
      ensures Unaliased(a)
    {
      assert Ok(a);
      forall b | b in all && b != a && !b.embed
        ensures b.ptr != a.ptr
      {
        assert Ok(b);
        var other := if b.shared then b.root else b;
        assert Ok(other) && other.Owns();
      }
    }

    // MEMMOVE within a buffer
    static method MemMove(p: array<Value>, to: nat, from: nat, n: nat)
      requires to + n <= p.Length && from + n <= p.Length
      modifies p
      ensures p[to..to + n] == old(p[from..from + n])
      ensures forall i :: 0 <= i < p.Length && !(to <= i < to + n) ==> p[i] == old(p[i])
    {
      forall i | 0 <= i < n {
        p[to + i] := p[from + i];
      }
    }

    // ary_heap_alloc followed by MEMCPY
    static method HeapCopy(capa: nat, src: seq<Value>) returns (p: array<Value>)
      requires |src| <= capa
      ensures fresh(p) && p.Length == capa && p[..|src|] == src
    {
      p := new Value[capa];
      forall i | 0 <= i < |src| {
        p[i] := src[i];
      }
    }

    // rb_ary_decrement_share, on behalf of `a`
    static method DecrementShare(root: RArray, ghost a: RArray)
      modifies root`capa, root`sharers
      ensures root.sharers == old(root.sharers) - {a}
      ensures root.capa == (if old(root.capa) > 1 then old(root.capa) - 1 else old(root.capa))
    {
      var num := root.capa as int - 1;
      if num > 0 {
        root.capa := num;
      }
      root.sharers := root.sharers - {a};
    }

    // rb_ary_unshare
    static method Unshare(a: RArray)
      requires a.root != null && a.root != a
      modifies a`shared, a.root`capa, a.root`sharers
      ensures !a.shared && a.root.sharers == old(a.root.sharers) - {a}
      ensures a.root.capa == (if old(a.root.capa) > 1 then old(a.root.capa) - 1 else old(a.root.capa))
    {
      DecrementShare(a.root, a);
      a.shared := false;
    }

    // rb_ary_set_shared, with its rb_ary_increment_share
    static method SetShared(a: RArray, root: RArray)
      requires a != root
      modifies a`shared, a`root, root`capa, root`sharers
      ensures a.shared && a.root == root && root.capa == old(root.capa) + 1 && root.sharers == old(root.sharers) + {a}
    {
      root.capa := root.capa + 1;
      root.sharers := root.sharers + {a};
      a.shared := true;
      a.root := root;
    }

    // ARY_CAPA
    function Capa(a: RArray): nat
      reads a
    {
      if a.embed then EMBED_LEN_MAX else if a.isRoot then a.len else a.capa
    }

    // rb_ary_cancel_sharing
    method CancelSharing(a: RArray)
      requires Valid() && Visible(a) && !a.frozen
      modifies this, repr
      ensures Valid() && all == old(all) && fresh(repr - old(repr))
      ensures model == old(model)
      ensures !a.shared && !a.frozen && a.len == old(a.len)
    {
      assert Ok(a);
      if a.shared {
        assert Ok(a.root);
        if a.len <= EMBED_LEN_MAX {
          CancelEmbedding(a);
        } else if a.root.capa == 1 && a.len > a.root.len / 2 {
          CancelTaking(a);
        } else {
          CancelCopying(a);
        }
      }
    }

    // The elements fit into the object.
    method CancelEmbedding(a: RArray)
      requires Valid() && Visible(a) && !a.frozen && a.shared && a.len <= EMBED_LEN_MAX
      modifies a, a.root
      ensures Valid() && all == old(all) && repr == old(repr)
      ensures model == old(model)
      ensures !a.shared && !a.frozen && a.len == old(a.len)
    {
      assert Ok(a) && Ok(a.root);
      Embed(a);
      assert a.Elts() == old(a.Elts());
      hide RArray.Elts;
      forall b | b in all ensures Ok(b) {
        assert old(Ok(b));
      }
    }

    static method Embed(a: RArray)
      requires a.root != null && a.root != a && a.off + a.len <= a.ptr.Length
      requires a.len <= |a.cells| == EMBED_LEN_MAX
      modifies a`shared, a`embed, a`cells, a.root`capa, a.root`sharers
      ensures !a.shared && a.embed && |a.cells| == EMBED_LEN_MAX && a.cells[..a.len] == a.ptr[a.off..a.off + a.len]
      ensures a.root.sharers == old(a.root.sharers) - {a}
      ensures a.root.capa == (if old(a.root.capa) > 1 then old(a.root.capa) - 1 else old(a.root.capa))
    {
      a.shared := false;
      a.embed := true;
      a.cells := a.ptr[a.off..a.off + a.len] + a.cells[a.len..];
      DecrementShare(a.root, a);
    }

    // The array is the only sharer and takes the buffer over from its root.
    method CancelTaking(a: RArray)
      requires Valid() && Visible(a) && !a.frozen && a.shared && Ok(a) && a.root.capa == 1
      modifies a, a.root, a.ptr
      ensures Valid() && all == old(all) && repr == old(repr)
      ensures model == old(model)
      ensures !a.shared && !a.frozen && a.len == old(a.len)
    {
      SoleOwner(a);
      ghost var root := a.root;
      assert Ok(root) && root.Owns();
      TakeBuffer(a);
      assert a.Elts() == old(a.Elts());
      forall b | b in all ensures Ok(b) {
        assert old(Ok(b));
        if b.shared {
          OneSharer(old(root.sharers), a, b);
        }
      }
    }

    static method TakeBuffer(a: RArray)
      requires a.root != null && a.root != a && a.off + a.len <= a.ptr.Length
      modifies a`shared, a`off, a`capa, a.root`embed, a.root`len, a.root`capa, a.root`sharers, a.ptr
      ensures !a.shared && a.off == 0 && a.capa == old(a.root.len) && a.root.embed && a.root.len == 0
      ensures a.ptr[..a.len] == old(a.ptr[a.off..a.off + a.len])
      ensures a.root.sharers == old(a.root.sharers) - {a}
    {
      var shift := a.off;
      a.shared := false;
      a.off := 0;
      a.capa := a.root.len;
      MemMove(a.ptr, 0, shift, a.len);
      a.root.embed := true;
      a.root.len := 0;
      DecrementShare(a.root, a);
    }

    // The elements are copied out.
    method CancelCopying(a: RArray)
      requires Valid() && Visible(a) && !a.frozen && a.shared
      modifies this`repr, a, a.root
      ensures Valid() && all == old(all) && fresh(repr - old(repr))
      ensures model == old(model)
      ensures !a.shared && !a.frozen && a.len == old(a.len)
    {
      assert Ok(a) && Ok(a.root);
      CopyOut(a);
      repr := repr + {a.ptr};
      assert a.Elts() == old(a.Elts());
      hide RArray.Elts;
      forall b | b in all ensures Ok(b) {
        assert old(Ok(b));
      }
    }

    static method CopyOut(a: RArray)
      requires a.root != null && a.root != a && a.off + a.len <= a.ptr.Length
      modifies a`shared, a`ptr, a`off, a`capa, a.root`capa, a.root`sharers
      ensures !a.shared && a.off == 0 && a.capa == a.len == a.ptr.Length && fresh(a.ptr)
      ensures a.ptr[..a.len] == old(a.ptr[a.off..a.off + a.len])
      ensures a.root.sharers == old(a.root.sharers) - {a}
      ensures a.root.capa == (if old(a.root.capa) > 1 then old(a.root.capa) - 1 else old(a.root.capa))
    {
      var p := HeapCopy(a.len, a.ptr[a.off..a.off + a.len]);
      Unshare(a);
      a.capa := a.len;
      a.ptr, a.off := p, 0;
    }

    // ary_resize_capa
    method ResizeCapa(a: RArray, capacity: nat)
      requires Valid() && Visible(a) && !a.frozen && !a.shared && a.len <= capacity
      modifies this`repr, a
      ensures Valid() && fresh(repr - old(repr))
      ensures model == old(model)
      ensures !a.shared && !a.frozen && a.len == old(a.len)
      ensures Capa(a) == (if capacity > EMBED_LEN_MAX then capacity else EMBED_LEN_MAX)
    {
      assert Ok(a);
      if !a.embed {
        // what is freed or reallocated here is used by no other array
        OwnerUnaliased(a);
      }
      Resize(a, capacity);
      repr := repr + {a.ptr};
      assert a.Elts() == old(a.Elts());
      hide RArray.Elts;
      forall b | b in all && b != a ensures Ok(b) {
        assert old(Ok(b));
      }
      assert Ok(a);
      assert Apart();
      hide Ok, Shape, Apart;
    }

    static method Resize(a: RArray, capacity: nat)
      requires a.len <= capacity && |a.cells| == EMBED_LEN_MAX
      requires if a.embed then a.len <= |a.cells| else a.off == 0 && a.len <= a.ptr.Length
      modifies a`embed, a`cells, a`ptr, a`off, a`capa
      ensures |a.cells| == EMBED_LEN_MAX && a.embed == (capacity <= EMBED_LEN_MAX)
      ensures a.embed ==> a.ptr == old(a.ptr)
      ensures !a.embed ==> fresh(a.ptr) && a.off == 0 && a.capa == a.ptr.Length == capacity
      ensures a.Elts() == old(a.Elts())
    {
      if capacity > EMBED_LEN_MAX {
        if a.embed {
          ToHeap(a, capacity);
        } else {
          HeapRealloc(a, capacity);
          a.capa := capacity;
        }
      } else if !a.embed {
        ToEmbed(a);
      }
    }

    static method ToHeap(a: RArray, capacity: nat)
      requires a.len <= |a.cells| && a.len <= capacity
      modifies a`embed, a`ptr, a`off, a`capa
      ensures !a.embed && fresh(a.ptr) && a.off == 0 && a.capa == a.ptr.Length == capacity
      ensures a.ptr[..a.len] == a.cells[..a.len]
    {
      a.ptr := HeapCopy(capacity, a.cells[..a.len]);
      a.off := 0;
      a.embed := false;
      a.capa := capacity;
    }

    // ary_heap_realloc
    static method HeapRealloc(a: RArray, capacity: nat)
      requires a.off == 0 && a.len <= a.ptr.Length && a.len <= capacity
      modifies a`ptr
      ensures fresh(a.ptr) && a.ptr.Length == capacity && a.ptr[..a.len] == old(a.ptr[..a.len])
    {
      a.ptr := HeapCopy(capacity, a.ptr[..if capacity < a.ptr.Length then capacity else a.ptr.Length]);
    }

    static method ToEmbed(a: RArray)
      requires a.off == 0 && a.len <= a.ptr.Length && a.len <= |a.cells| == EMBED_LEN_MAX
      modifies a`embed, a`cells
      ensures a.embed && |a.cells| == EMBED_LEN_MAX && a.cells[..a.len] == a.ptr[..a.len]
    {
      a.cells := a.ptr[..a.len] + a.cells[a.len..];
      a.embed := true;
    }

    // ary_double_capa
    method DoubleCapa(a: RArray, min: nat)
      requires Valid() && Visible(a) && !a.frozen && !a.shared && a.len <= min + DEFAULT_SIZE
      modifies this`repr, a
      ensures Valid() && fresh(repr - old(repr))
      ensures model == old(model)
      ensures !a.shared && !a.frozen && a.len == old(a.len) && Capa(a) >= min + DEFAULT_SIZE
    {
      var newCapa := Capa(a) / 2;
      if newCapa < DEFAULT_SIZE {
        newCapa := DEFAULT_SIZE;
      }
      newCapa := newCapa + min;
      ResizeCapa(a, newCapa);
    }

    // ary_make_shared
    method MakeShared(a: RArray) returns (r: RArray)
      requires Valid() && Visible(a) && !a.embed
      modifies this`all, this`repr, a, a.ptr
      ensures Valid() && all >= old(all) && fresh(repr - old(repr))
      ensures model == old(model)
      ensures r in all && r in repr && r.isRoot && !r.embed && r.ptr == a.ptr
      ensures if a.shared then a.root == r else r == a && a.frozen
      ensures !a.embed && a.frozen == old(a.frozen) && a.len == old(a.len)
      ensures old(a.shared) ==> r == old(a.root) && a.off == old(a.off) && a.ptr == old(a.ptr)
      ensures !old(a.shared) && !a.frozen ==>
                a.shared && fresh(r) && r.hidden && r.capa == 1 && r.len == old(a.capa) && a.off == 0 && a.ptr == old(a.ptr)
    {
      assert Ok(a);
      if a.shared {
        assert Ok(a.root);
        return a.root;
      } else if a.isRoot {
        return a;
      } else if a.frozen {
        MakeRoot(a);
        r := a;
      } else {
        r := MakeHiddenRoot(a);
      }
    }

    // A frozen array becomes a root itself, and counts as one of its own users.
    method MakeRoot(a: RArray)
      requires Valid() && Visible(a) && a.Owns() && a.frozen && !a.isRoot
      modifies this`repr, a
      ensures Valid() && fresh(repr - old(repr)) && model == old(model)
      ensures a.isRoot && a.Owns() && a.frozen && a.len == old(a.len)
    {
      assert Ok(a);
      ShrinkToRoot(a);
      repr := repr + {a.ptr};
      assert a.Elts() == old(a.Elts());
      hide RArray.Elts;
      forall b | b in all ensures Ok(b) {
        assert old(Ok(b));
      }
    }

    // ary_shrink_capa, and the root's count in place of its capacity
    static method ShrinkToRoot(a: RArray)
      requires a.off == 0 && a.len <= a.ptr.Length
      modifies a`ptr, a`isRoot, a`capa, a`sharers
      ensures a.isRoot && a.capa == 1 && a.sharers == {} && a.ptr.Length == a.len && a.ptr[..] == old(a.ptr[..a.len])
      ensures a.ptr == old(a.ptr) || fresh(a.ptr)
    {
      if a.ptr.Length > a.len {
        HeapRealloc(a, a.len);
      }
      a.isRoot := true;
      a.capa := 1;
      a.sharers := {};
    }

    // Otherwise a hidden root takes the buffer and the array becomes its only window.
    method MakeHiddenRoot(a: RArray) returns (r: RArray)
      requires Valid() && Visible(a) && a.Owns() && !a.frozen
      modifies this`all, this`repr, a, a.ptr
      ensures Valid() && all == old(all) + {r} && repr >= old(repr) && fresh(repr - old(repr)) && model == old(model)
      ensures fresh(r) && r in repr && r.hidden && r.isRoot && !r.embed && r.capa == 1 && r.len == old(a.capa)
      ensures a.shared && a.root == r && !a.frozen && !a.embed && a.len == old(a.len)
      ensures a.off == 0 && a.ptr == old(a.ptr) && r.ptr == a.ptr
    {
      assert Ok(a);
      OwnerUnaliased(a);
      r := NewRootAlone(a);
      hide RArray.Elts;
      all := all + {r};
      repr := repr + {r};
      forall b | b in all && b != r && b != a ensures Ok(b) {
        assert old(Ok(b));
      }
      assert Ok(r) && Ok(a);
      assert Apart();
      hide Ok, Shape, Apart;
    }

    // No other array notices.
    method NewRootAlone(a: RArray) returns (r: RArray)
      requires a.Owns() && a.off == 0 && a.capa == a.ptr.Length && a.len <= a.capa && Unaliased(a)
      modifies a`shared, a`root, a.ptr
      ensures fresh(r) && r.hidden && r.isRoot && r.frozen && !r.embed && !r.shared && r.capa == 1 && r.sharers == {a}
      ensures r.ptr == a.ptr && r.off == 0 && r.len == a.capa && |r.cells| == EMBED_LEN_MAX
      ensures a.shared && a.root == r
      ensures forall b {:trigger b.Elts()} :: b in all && b != r ==> b.Elts() == old(b.Elts())
    {
      r := NewRoot(a);
      assert a.Elts() == old(a.Elts());
    }

    static method NewRoot(a: RArray) returns (r: RArray)
      requires a.capa == a.ptr.Length && a.len <= a.capa
      modifies a`shared, a`root, a.ptr
      ensures fresh(r) && r.hidden && r.isRoot && r.frozen && !r.embed && !r.shared && r.capa == 1 && r.sharers == {a}
      ensures r.ptr == a.ptr && r.off == 0 && r.len == a.capa && |r.cells| == EMBED_LEN_MAX
      ensures a.shared && a.root == r && a.ptr[..a.len] == old(a.ptr[..a.len])
    {
      r := new RArray(true);
      r.embed := false;
      r.len := a.capa;
      r.ptr := a.ptr;
      forall i | a.len <= i < a.capa {
        a.ptr[i] := Nil;
      }
      r.isRoot := true;
      r.capa := 1;
      a.shared := true;
      a.root := r;
      r.sharers := {a};
      r.frozen := true;
    }
  }
}
