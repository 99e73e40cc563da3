/**
 The mutators and slices of array.c over shared storage.  Each is proved to have its
 effect on the receiver as a plain sequence and to leave every other array as it was:
 the population afterwards is the old one with the receiver's entry replaced.
 */
module CowArray {
  import opened SharedHeap

  datatype Error = FrozenError | IndexError | ArgumentError

  // A method's value, nothing, or the exception it raises.
  datatype Result<+T> = Ok(value: T) | Raised(error: Error)

  // ---- writing in place ----

  // The slots from where `a` starts to the end of the storage it may use.
  function Slots(a: RArray): seq<Value>
    reads a, a.ptr
  {
    if a.embed then a.cells else if a.off <= a.ptr.Length then a.ptr[a.off..] else []
  }

  // Only `a` would notice a write to its slots.
  ghost predicate Writable(s: ObjectSpace, a: RArray)
    reads s, s.repr, s.all, a
  {
    s.Valid() && s.Visible(a) && !a.frozen && (a.embed || s.Sole(a))
  }

  lemma SlotsHoldElts(s: ObjectSpace, a: RArray)
    requires s.Valid() && s.Visible(a)
    ensures a.len <= |Slots(a)| && a.Elts() == Slots(a)[..a.len]
    ensures a in s.model && s.model[a] == Plain(Slots(a)[..a.len], a.frozen)
    ensures a.embed ==> |Slots(a)| == EMBED_LEN_MAX
    ensures !a.embed && !a.shared && !a.frozen ==> |Slots(a)| == a.capa
  {
    assert s.Ok(a);
  }

  lemma OwnWritable(s: ObjectSpace, a: RArray)
    requires s.Valid() && s.Visible(a) && !a.frozen && !a.shared
    ensures Writable(s, a)
  {
    if !a.embed {
      s.SoleOwner(a);
    }
  }

  // RARRAY_PTR_USE with MEMCPY or single stores, at `beg`
  method Fill(s: ObjectSpace, a: RArray, beg: nat, vals: seq<Value>)
    requires Writable(s, a) && beg + |vals| <= |Slots(a)|
    modifies s`model, a`cells, a.ptr
    ensures Writable(s, a) && a.len <= |Slots(a)|
    ensures Slots(a) == old(Slots(a))[..beg] + vals + old(Slots(a))[beg + |vals|..]
    ensures s.model == old(s.model)[a := Plain(Slots(a)[..a.len], false)]
  {
    if a.embed {
      FillCells(s, a, beg, vals);
    } else {
      FillBuffer(s, a, beg, vals);
    }
  }

  method FillCells(s: ObjectSpace, a: RArray, beg: nat, vals: seq<Value>)
    requires Writable(s, a) && a.embed && beg + |vals| <= |a.cells|
    modifies s`model, a`cells
    ensures Writable(s, a) && a.len <= |a.cells|
    ensures a.cells == old(a.cells)[..beg] + vals + old(a.cells)[beg + |vals|..]
    ensures s.model == old(s.model)[a := Plain(a.cells[..a.len], false)]
  {
    assert s.Ok(a);
    a.cells := a.cells[..beg] + vals + a.cells[beg + |vals|..];
    assert a.Elts() == a.cells[..a.len];
    hide RArray.Elts;
    forall b | b in s.all && b != a ensures s.Ok(b) {
      assert old(s.Ok(b));
    }
    s.Settle(a);
  }

  method FillBuffer(s: ObjectSpace, a: RArray, beg: nat, vals: seq<Value>)
    requires Writable(s, a) && !a.embed && beg + |vals| <= |Slots(a)|
    modifies s`model, a.ptr
    ensures Writable(s, a) && a.len <= |Slots(a)|
    ensures Slots(a) == old(Slots(a))[..beg] + vals + old(Slots(a))[beg + |vals|..]
    ensures s.model == old(s.model)[a := Plain(Slots(a)[..a.len], false)]
  {
    assert s.Ok(a);
    PokeSlots(a, beg, vals);
    hide Slots;
    forall b | b in s.all && b != a && !b.hidden ensures b.Elts() == old(b.Elts()) {
      assert b.embed || b.ptr != a.ptr;
    }
    hide RArray.Elts;
    forall b | b in s.all && b != a ensures s.Ok(b) {
      assert old(s.Ok(b));
    }
    s.Settle(a);
  }

  method PokeSlots(a: RArray, beg: nat, vals: seq<Value>)
    requires !a.embed && beg + |vals| <= |Slots(a)| && a.off + a.len <= a.ptr.Length
    modifies a.ptr
    ensures Slots(a) == old(Slots(a))[..beg] + vals + old(Slots(a))[beg + |vals|..]
    ensures a.len <= |Slots(a)| && a.Elts() == Slots(a)[..a.len]
  {
    PokeBuffer(a.ptr, a.off + beg, vals);
    PokedFrom(old(a.ptr[..]), a.ptr[..], a.off, beg, vals);
  }

  lemma PokedFrom(was: seq<Value>, now: seq<Value>, off: nat, beg: nat, vals: seq<Value>)
    requires off + beg + |vals| <= |was|
    requires now == was[..off + beg] + vals + was[off + beg + |vals|..]
    ensures now[off..] == was[off..][..beg] + vals + was[off..][beg + |vals|..]
  {
  }

  method PokeBuffer(p: array<Value>, at: nat, vals: seq<Value>)
    requires at + |vals| <= p.Length
    modifies p
    ensures p[..] == old(p[..])[..at] + vals + old(p[..])[at + |vals|..]
  {
    forall i | 0 <= i < |vals| {
      p[at + i] := vals[i];
    }
  }

  // ARY_SET_LEN
  method SetLen(s: ObjectSpace, a: RArray, n: nat)
    requires s.Valid() && s.Visible(a) && !a.frozen && n <= |Slots(a)|
    modifies s`model, a`len
    ensures s.Valid() && a.len == n <= |Slots(a)| && Slots(a) == old(Slots(a))
    ensures s.model == old(s.model)[a := Plain(Slots(a)[..n], false)]
  {
    assert s.Ok(a);
    a.len := n;
    assert a.Elts() == Slots(a)[..n] && Slots(a) == old(Slots(a));
    hide Slots, RArray.Elts;
    forall b | b in s.all && b != a ensures s.Ok(b) {
      assert old(s.Ok(b));
    }
    s.Settle(a);
  }

  // ARY_INCREASE_PTR and ARY_INCREASE_LEN on a window: the first `n` elements are dropped.
  method Advance(s: ObjectSpace, a: RArray, n: nat)
    requires s.Valid() && s.Visible(a) && !a.frozen && a.shared && s.Ok(a) && n <= a.len
    modifies s`model, a`off, a`len
    ensures s.Valid()
    ensures s.model == old(s.model)[a := Plain(old(a.Elts())[n..], false)]
  {
    a.off := a.off + n;
    a.len := a.len - n;
    assert a.Elts() == old(a.Elts())[n..];
    hide RArray.Elts;
    forall b | b in s.all && b != a ensures s.Ok(b) {
      assert old(s.Ok(b));
    }
    s.Settle(a);
  }

  lemma Seen(s: ObjectSpace, a: RArray)
    requires s.Valid() && a in s.model
    ensures s.Visible(a) && s.Ok(a)
  {
    assert s.Ok(a);
  }

  // MEMMOVE within the slots of an array
  method MoveSlots(s: ObjectSpace, a: RArray, to: nat, from: nat, n: nat)
    requires Writable(s, a) && to + n <= |Slots(a)| && from + n <= |Slots(a)|
    modifies s`model, a`cells, a.ptr
    ensures Writable(s, a) && a.len <= |Slots(a)| == |old(Slots(a))|
    ensures Slots(a)[to..to + n] == old(Slots(a))[from..from + n]
    ensures s.model == old(s.model)[a := Plain(Slots(a)[..a.len], false)]
  {
    Fill(s, a, to, Slots(a)[from..from + n]);
  }

  // ---- push and pop ----

  // ary_ensure_room_for_push.  The array returned owns the storage that will be written.
  method EnsureRoomForPush(s: ObjectSpace, a: RArray, addLen: nat) returns (r: Result<RArray>)
    requires s.Valid() && a in s.model
    modifies s, s.repr
    ensures s.Valid() && s.all >= old(s.all) && fresh(s.repr - old(s.repr)) && s.model == old(s.model)
    ensures if old(a.frozen) then r == Raised(FrozenError) else r.Ok? && !r.value.shared
    ensures !old(a.frozen) ==> Writable(s, a) && a.len == old(a.len) && a.len + addLen <= |Slots(a)|
  {
    Seen(s, a);
    var newLen := a.len + addLen;
    if a.shared {
      assert s.Ok(a.root);
      if newLen > EMBED_LEN_MAX {
        var root := a.root;
        if root.capa == 1 {
          if a.off + newLen <= root.len {
            if a.frozen {
              return Raised(FrozenError);
            }
            s.SoleOwner(a);
            return Ok(root);
          } else {
            if a.frozen {
              return Raised(FrozenError);
            }
            s.CancelSharing(a);
            var capa := s.Capa(a);
            if newLen > capa - capa / 64 {
              s.DoubleCapa(a, newLen);
            }
            OwnWritable(s, a);
            SlotsHoldElts(s, a);
            return Ok(a);
          }
        }
      }
      if a.frozen {
        return Raised(FrozenError);
      }
      s.CancelSharing(a);
    } else {
      if a.frozen {
        return Raised(FrozenError);
      }
    }
    var capa := s.Capa(a);
    if newLen > capa {
      s.DoubleCapa(a, newLen);
    }
    OwnWritable(s, a);
    SlotsHoldElts(s, a);
    return Ok(a);
  }

  // rb_ary_cat; rb_ary_push is the case of one item
  method Cat(s: ObjectSpace, a: RArray, items: seq<Value>) returns (r: Result<()>)
    requires s.Valid() && a in s.model
    modifies s, s.repr
    ensures s.Valid() && s.all >= old(s.all) && fresh(s.repr - old(s.repr))
    ensures if old(s.model[a].frozen) then r == Raised(FrozenError) && s.model == old(s.model)
            else r == Ok(()) && s.model == old(s.model)[a := Plain(old(s.model[a].elts) + items, false)]
  {
    Seen(s, a);
    var idx := a.len;
    var target := EnsureRoomForPush(s, a, |items|);
    if target.Raised? {
      return Raised(target.error);
    }
    // assert(!ARY_SHARED_P(buff_owner_ary))
    assert !target.value.shared;
    SlotsHoldElts(s, a);
    Seen(s, a);
    Fill(s, a, idx, items);
    SetLen(s, a, idx + |items|);
    return Ok(());
  }

  // rb_ary_push
  method Push(s: ObjectSpace, a: RArray, item: Value) returns (r: Result<()>)
    requires s.Valid() && a in s.model
    modifies s, s.repr
    ensures s.Valid() && s.all >= old(s.all) && fresh(s.repr - old(s.repr))
    ensures if old(s.model[a].frozen) then r == Raised(FrozenError) && s.model == old(s.model)
            else r == Ok(()) && s.model == old(s.model)[a := Plain(old(s.model[a].elts) + [item], false)]
  {
    Seen(s, a);
    var idx := a.len;
    var target := EnsureRoomForPush(s, a, 1);
    if target.Raised? {
      return Raised(target.error);
    }
    SlotsHoldElts(s, a);
    Seen(s, a);
    Fill(s, a, idx, [item]);
    SetLen(s, a, idx + 1);
    return Ok(());
  }

  // rb_ary_pop
  method Pop(s: ObjectSpace, a: RArray) returns (r: Result<Value>)
    requires s.Valid() && a in s.model
    modifies s, s.repr
    ensures s.Valid() && s.all >= old(s.all) && fresh(s.repr - old(s.repr))
    ensures var e := old(s.model[a].elts);
            if old(s.model[a].frozen) then r == Raised(FrozenError) && s.model == old(s.model)
            else if e == [] then r == Ok(Nil) && s.model == old(s.model)
            else r == Ok(e[|e| - 1]) && s.model == old(s.model)[a := Plain(e[..|e| - 1], false)]
  {
    Seen(s, a);
    if a.frozen {
      return Raised(FrozenError);
    }
    var n := a.len;
    if n == 0 {
      return Ok(Nil);
    }
    if !a.embed && !a.shared && n * 3 < s.Capa(a) && s.Capa(a) > DEFAULT_SIZE {
      s.ResizeCapa(a, n * 2);
    }
    SlotsHoldElts(s, a);
    Seen(s, a);
    assert Slots(a)[..n][..n - 1] == Slots(a)[..n - 1];
    SetLen(s, a, n - 1);
    return Ok(Slots(a)[n - 1]);
  }

  // ---- slices ----

  // ary_make_partial: a slice of more than three elements is a window into the array's storage.
  method MakePartial(s: ObjectSpace, a: RArray, offset: nat, len: nat) returns (result: RArray)
    requires s.Valid() && a in s.model && offset + len <= |s.model[a].elts|
    modifies s, s.repr
    ensures s.Valid() && s.all >= old(s.all) && fresh(s.repr - old(s.repr)) && fresh(result)
    ensures s.model == old(s.model)[result := Plain(old(s.model[a].elts)[offset..offset + len], false)]
    ensures result.len == len && a.len == old(a.len)
  {
    Seen(s, a);
    SlotsHoldElts(s, a);
    if len <= EMBED_LEN_MAX {
      assert Slots(a)[..a.len][offset..offset + len] == Slots(a)[offset..offset + len];
      result := NewEmbedded(s, Slots(a)[offset..offset + len]);
    } else {
      result := NewEmbedded(s, []);
      Seen(s, a);
      var shared := s.MakeShared(a);
      BecomeWindow(s, result, a, shared, offset, len);
    }
  }

  method NewEmbedded(s: ObjectSpace, elts: seq<Value>) returns (result: RArray)
    requires s.Valid() && |elts| <= EMBED_LEN_MAX
    modifies s
    ensures s.Valid() && s.all == old(s.all) + {result} && fresh(s.repr - old(s.repr)) && fresh(result)
    ensures s.model == old(s.model)[result := Plain(elts, false)] && result.len == |elts|
    ensures !result.frozen && !result.shared && result.embed
  {
    result := new RArray(false);
    result.cells := elts + result.cells[|elts|..];
    result.len := |elts|;
    Register(s, result, elts);
  }

  // A new array joins the population.
  ghost method Register(s: ObjectSpace, a: RArray, elts: seq<Value>)
    requires s.Valid() && a !in s.all && !a.hidden && !a.isRoot && !a.shared && !a.frozen && a.Elts() == elts
    requires a.embed && a.len <= EMBED_LEN_MAX == |a.cells|
    modifies s
    ensures s.Valid() && s.all == old(s.all) + {a} && s.repr == old(s.repr) + {a, a.ptr}
    ensures s.model == old(s.model)[a := Plain(elts, false)]
  {
    s.all := s.all + {a};
    s.repr := s.repr + {a, a.ptr};
    s.model := s.model[a := Plain(elts, false)];
    hide RArray.Elts;
    forall b | b in s.all ensures s.Ok(b) {
      assert b != a ==> old(s.Ok(b));
    }
  }

  // `w` becomes a window on the storage `a` shares through `root`.
  method BecomeWindow(s: ObjectSpace, w: RArray, a: RArray, root: RArray, offset: nat, len: nat)
    requires s.Valid() && a in s.model && !a.embed && offset + len <= |s.model[a].elts|
    requires root in s.all && root.isRoot && !root.embed && root.ptr == a.ptr
    requires if a.shared then a.root == root else a == root
    requires w in s.model && w != a && !w.frozen && !w.shared
    modifies s`model, w, root
    ensures s.Valid()
    ensures s.model == old(s.model)[w := Plain(old(s.model[a].elts)[offset..offset + len], false)]
    ensures w.len == len && a.len == old(a.len)
  {
    assert s.Ok(a) && s.Ok(root) && s.Ok(w);
    ghost var elts := s.model[a].elts[offset..offset + len];
    OpenWindow(w, a, root, offset, len);
    assert root.Elts() == old(root.Elts()) && w.Elts() == elts;
    hide RArray.Elts;
    assert s.Ok(root);
    forall b | b in s.all && b != w && b != root ensures s.Ok(b) {
      assert old(s.Ok(b));
    }
    assert s.Shape(w) && s.Apart();
    hide ObjectSpace.Ok, ObjectSpace.Shape, ObjectSpace.Apart;
    s.Settle(w);
  }

  method OpenWindow(w: RArray, a: RArray, root: RArray, offset: nat, len: nat)
    requires w != a && w != root && !a.embed && a.off + a.len <= a.ptr.Length && offset + len <= a.len
    modifies w`embed, w`ptr, w`off, w`len, w`shared, w`root, root`capa, root`sharers
    ensures !w.embed && w.shared && w.root == root && w.ptr == a.ptr && w.off == a.off + offset && w.len == len
    ensures root.capa == old(root.capa) + 1 && root.sharers == old(root.sharers) + {w}
    ensures w.Elts() == old(a.Elts())[offset..offset + len]
  {
    ghost var elts := a.ptr[a.off + offset..a.off + offset + len];
    assert elts == a.Elts()[offset..offset + len];
    w.embed := false;
    w.ptr, w.off := a.ptr, a.off;
    w.len := a.len;
    ObjectSpace.SetShared(w, root);
    w.off := w.off + offset;
    w.len := len;
    assert w.Elts() == elts;
  }

  // rb_ary_subseq: nil when out of range
  method Subseq(s: ObjectSpace, a: RArray, beg: int, len: int) returns (result: RArray?)
    requires s.Valid() && a in s.model
    modifies s, s.repr
    ensures s.Valid() && s.all >= old(s.all) && fresh(s.repr - old(s.repr))
    ensures (result == null) == (beg < 0 || len < 0 || beg > |old(s.model[a].elts)|)
    ensures result == null ==> s.model == old(s.model)
    ensures result != null ==>
              var e := old(s.model[a].elts);
              fresh(result) && s.model == old(s.model)[result := Plain(e[beg..if beg + len <= |e| then beg + len else |e|], false)]
  {
    Seen(s, a);
    SlotsHoldElts(s, a);
    var alen := a.len;
    if beg > alen {
      return null;
    }
    if beg < 0 || len < 0 {
      return null;
    }
    var n := len;
    if alen < len || alen < beg + len {
      n := alen - beg;
    }
    if n == 0 {
      assert s.model[a].elts[beg..beg] == [];
      result := NewEmbedded(s, []);
    } else {
      result := MakePartial(s, a, beg, n);
    }
  }

  // ---- shift ----

  // rb_ary_shift
  method Shift(s: ObjectSpace, a: RArray) returns (r: Result<Value>)
    requires s.Valid() && a in s.model
    modifies s, s.repr
    ensures s.Valid() && s.all >= old(s.all) && fresh(s.repr - old(s.repr))
    ensures var e := old(s.model[a].elts);
            if old(s.model[a].frozen) then r == Raised(FrozenError) && s.model == old(s.model)
            else if e == [] then r == Ok(Nil) && s.model == old(s.model)
            else r == Ok(e[0]) && s.model == old(s.model)[a := Plain(e[1..], false)]
  {
    Seen(s, a);
    var len := a.len;
    if a.frozen {
      return Raised(FrozenError);
    }
    if len == 0 {
      return Ok(Nil);
    }
    SlotsHoldElts(s, a);
    var top := Slots(a)[0];
    if !a.shared {
      OwnWritable(s, a);
      if len < DEFAULT_SIZE {
        SlideLeft(s, a, 1);
        return Ok(top);
      }
      DropFront(Slots(a), [Nil], len);
      Fill(s, a, 0, [Nil]);
      var root := s.MakeShared(a);
    } else if a.root.capa == 1 {
      s.SoleOwner(a);
      DropFront(Slots(a), [Nil], len);
      Fill(s, a, 0, [Nil]);
    }
    SlotsHoldElts(s, a);
    Seen(s, a);
    Advance(s, a, 1);
    return Ok(top);
  }

  // MEMMOVE over the first `n` elements
  method SlideLeft(s: ObjectSpace, a: RArray, n: nat)
    requires Writable(s, a) && n <= a.len <= |Slots(a)|
    modifies s`model, a`cells, a`len, a.ptr
    ensures s.Valid()
    ensures s.model == old(s.model)[a := Plain(old(Slots(a)[..a.len])[n..], false)]
  {
    assert Slots(a)[n..n + (a.len - n)] == Slots(a)[..a.len][n..];
    MoveSlots(s, a, 0, n, a.len - n);
    assert Slots(a)[..a.len - n] == Slots(a)[0..0 + (a.len - n)];
    SetLen(s, a, a.len - n);
  }

  // What is written over the elements about to be dropped does not matter.
  lemma DropFront(slots: seq<Value>, nils: seq<Value>, len: nat)
    requires |nils| <= len <= |slots|
    ensures (slots[..0] + nils + slots[0 + |nils|..])[..len][|nils|..] == slots[..len][|nils|..]
  {
  }

  // behead_shared.  A frozen array is refused, whether or not it is shared.
  method BeheadShared(s: ObjectSpace, a: RArray, n: nat) returns (r: Result<()>)
    requires s.Valid() && a in s.model && (a.shared || a.frozen) && n <= |s.model[a].elts|
    modifies s, s.repr
    ensures s.Valid() && s.all == old(s.all) && s.repr == old(s.repr)
    ensures if old(s.model[a].frozen) then r == Raised(FrozenError) && s.model == old(s.model)
            else r == Ok(()) && s.model == old(s.model)[a := Plain(old(s.model[a].elts)[n..], false)]
  {
    Seen(s, a);
    if a.frozen {
      return Raised(FrozenError);
    }
    SlotsHoldElts(s, a);
    if a.root.capa == 1 {
      s.SoleOwner(a);
      DropFront(Slots(a), seq(n, _ => Nil), a.len);
      Fill(s, a, 0, seq(n, _ => Nil));
    }
    SlotsHoldElts(s, a);
    Seen(s, a);
    Advance(s, a, n);
    return Ok(());
  }

  // rb_ary_behead
  method Behead(s: ObjectSpace, a: RArray, n: nat) returns (r: Result<()>)
    requires s.Valid() && a in s.model && n <= |s.model[a].elts|
    modifies s, s.repr
    ensures s.Valid() && s.all >= old(s.all) && fresh(s.repr - old(s.repr))
    ensures if n > 0 && old(s.model[a].frozen) then r == Raised(FrozenError) && s.model == old(s.model)
            else r == Ok(()) && s.model == old(s.model)[a := Plain(old(s.model[a].elts)[n..], old(s.model[a].frozen))]
  {
    Seen(s, a);
    SlotsHoldElts(s, a);
    if n <= 0 {
      assert s.model == s.model[a := s.model[a]];
      return Ok(());
    } else if a.shared {
      r := BeheadShared(s, a, n);
    } else if a.len >= DEFAULT_SIZE {
      var root := s.MakeShared(a);
      r := BeheadShared(s, a, n);
    } else {
      if a.frozen {
        return Raised(FrozenError);
      }
      OwnWritable(s, a);
      SlideLeft(s, a, n);
      return Ok(());
    }
  }

  datatype End = First | Last

  // ary_take_first_or_last
  method TakeFirstOrLast(s: ObjectSpace, a: RArray, n: int, end: End) returns (r: Result<RArray>)
    requires s.Valid() && a in s.model
    modifies s, s.repr
    ensures s.Valid() && s.all >= old(s.all) && fresh(s.repr - old(s.repr)) && a.len == old(a.len)
    ensures n < 0 ==> r == Raised(ArgumentError) && s.model == old(s.model)
    ensures n >= 0 ==> r.Ok? && fresh(r.value) && s.model == old(s.model)[r.value := Plain(Taken(old(s.model[a].elts), n, end), false)]
    ensures n >= 0 ==> r.value.len == (if n > a.len then a.len else n)
  {
    Seen(s, a);
    var len := a.len;
    var offset, m := 0, n;
    if m > len {
      m := len;
    } else if m < 0 {
      return Raised(ArgumentError);
    }
    if end == Last {
      offset := len - m;
    }
    SlotsHoldElts(s, a);
    assert s.model[a].elts[offset..offset + m] == Taken(s.model[a].elts, n, end);
    var result := MakePartial(s, a, offset, m);
    return Ok(result);
  }

  function Taken(e: seq<Value>, n: nat, end: End): seq<Value>
  {
    var m := if n > |e| then |e| else n;
    if end == First then e[..m] else e[|e| - m..]
  }

  function Left(e: seq<Value>, n: nat, end: End): seq<Value>
  {
    var m := if n > |e| then |e| else n;
    if end == First then e[m..] else e[..|e| - m]
  }

  // The elements of a slice are split off and kept by the slice, even though it may share their storage.
  lemma TakenAndLeft(e: seq<Value>, n: nat)
    ensures Taken(e, n, First) + Left(e, n, First) == e
    ensures Left(e, n, Last) + Taken(e, n, Last) == e
    ensures |Taken(e, n, First)| == |Taken(e, n, Last)| == if n > |e| then |e| else n
  {
  }

  // rb_ary_shift_m with an argument
  method ShiftN(s: ObjectSpace, a: RArray, n: int) returns (r: Result<RArray>)
    requires s.Valid() && a in s.model
    modifies s, s.repr
    ensures s.Valid() && s.all >= old(s.all) && fresh(s.repr - old(s.repr))
    ensures var e := old(s.model[a].elts);
            if old(s.model[a].frozen) then r == Raised(FrozenError) && s.model == old(s.model)
            else if n < 0 then r == Raised(ArgumentError) && s.model == old(s.model)
            else r.Ok? && fresh(r.value) &&
                 s.model == old(s.model)[r.value := Plain(Taken(e, n, First), false)][a := Plain(Left(e, n, First), false)]
  {
    Seen(s, a);
    if a.frozen {
      return Raised(FrozenError);
    }
    r := TakeFirstOrLast(s, a, n, First);
    if r.Raised? {
      return;
    }
    var behead := Behead(s, a, r.value.len);
  }

  // rb_ary_pop_m with an argument
  method PopN(s: ObjectSpace, a: RArray, n: int) returns (r: Result<RArray>)
    requires s.Valid() && a in s.model
    modifies s, s.repr
    ensures s.Valid() && s.all >= old(s.all) && fresh(s.repr - old(s.repr))
    ensures var e := old(s.model[a].elts);
            if old(s.model[a].frozen) then r == Raised(FrozenError) && s.model == old(s.model)
            else if n < 0 then r == Raised(ArgumentError) && s.model == old(s.model)
            else r.Ok? && fresh(r.value) &&
                 s.model == old(s.model)[r.value := Plain(Taken(e, n, Last), false)][a := Plain(Left(e, n, Last), false)]
  {
    Seen(s, a);
    if a.frozen {
      return Raised(FrozenError);
    }
    r := TakeFirstOrLast(s, a, n, Last);
    if r.Raised? {
      return;
    }
    Seen(s, a);
    SlotsHoldElts(s, a);
    assert Slots(a)[..a.len][..a.len - r.value.len] == Slots(a)[..a.len - r.value.len];
    SetLen(s, a, a.len - r.value.len);
  }

  // ---- unshift ----

  // make_room_for_unshift.  Afterwards the array starts `argc` slots earlier and its elements follow them.
  method MakeRoomForUnshift(s: ObjectSpace, a: RArray, argc: nat, capa: nat, len: nat) returns (target: RArray)
    requires s.Valid() && a in s.model && !a.frozen && a.shared && s.Ok(a) && a.root.capa == 1
    requires len == a.len && capa == a.ptr.Length && len + argc <= capa
    modifies s`model, a`off, a.ptr
    ensures Writable(s, a) && a.len == len && argc + len <= |Slots(a)|
    ensures !target.shared
    ensures Slots(a)[argc..argc + len] == old(s.model[a].elts)
    ensures s.model == old(s.model)[a := Plain(Slots(a)[..len], false)]
  {
    s.SoleOwner(a);
    SlideAlone(s, a, argc, capa, len);
    hide Slots, RArray.Elts;
    forall b | b in s.all && b != a ensures s.Ok(b) {
      assert old(s.Ok(b));
    }
    // assert(ARY_SHARED_ROOT_OCCUPIED(ARY_SHARED_ROOT(ary)))
    assert a.root.capa == 1;
    assert s.Ok(a.root) && s.Shape(a) && s.Apart();
    target := a.root;
    hide ObjectSpace.Ok, ObjectSpace.Shape, ObjectSpace.Apart;
    s.Settle(a);
  }

  // No other array that Ruby sees notices.
  method SlideAlone(ghost s: ObjectSpace, a: RArray, argc: nat, capa: nat, len: nat)
    requires !a.embed && len == a.len && capa == a.ptr.Length && len + argc <= capa && a.off + len <= capa && s.Sole(a)
    modifies a`off, a.ptr
    ensures a.off + argc + len <= capa && a.Elts() == Slots(a)[..len] && argc + len <= |Slots(a)|
    ensures Slots(a)[argc..argc + len] == old(a.Elts())
    ensures forall b {:trigger b.Elts()} :: b in s.all && b != a && !b.hidden ==> b.Elts() == old(b.Elts())
  {
    SlideRight(a, argc, capa, len);
  }

  method SlideRight(a: RArray, argc: nat, capa: nat, len: nat)
    requires !a.embed && len == a.len && capa == a.ptr.Length && len + argc <= capa && a.off + len <= capa
    modifies a`off, a.ptr
    ensures a.off + argc + len <= capa
    ensures a.ptr[a.off + argc..a.off + argc + len] == old(a.ptr[a.off..a.off + len])
    ensures Slots(a)[argc..argc + len] == old(a.Elts())
  {
    ghost var elts := a.ptr[a.off..a.off + len];
    assert elts == a.Elts();
    var head := a.off;
    if head < argc {
      var room := capa - len - argc;
      room := room - room / 16;
      ObjectSpace.MemMove(a.ptr, argc + room, head, len);
      head := argc + room;
    }
    a.off := head - argc;
    assert a.ptr[a.off + argc..a.off + argc + len] == elts;
    assert Slots(a)[argc..argc + len] == a.ptr[a.off + argc..a.off + argc + len];
  }

  // ary_modify_for_unshift
  method ModifyForUnshift(s: ObjectSpace, a: RArray, argc: nat) returns (r: Result<RArray>)
    requires s.Valid() && a in s.model
    modifies s, s.repr
    ensures s.Valid() && s.all >= old(s.all) && fresh(s.repr - old(s.repr))
    ensures old(a.frozen) ==> r == Raised(FrozenError) && s.model == old(s.model)
    ensures !old(a.frozen) ==> r.Ok? && !r.value.shared && RoomMade(s, a, argc, old(s.model), old(a.len))
  {
    Seen(s, a);
    var len := a.len;
    var newLen := len + argc;
    if a.frozen {
      return Raised(FrozenError);
    }
    s.CancelSharing(a);
    var capa := s.Capa(a);
    if capa - capa / 64 <= newLen {
      s.DoubleCapa(a, newLen);
    }
    Seen(s, a);
    hide RoomMade, RArray.Elts;
    if newLen > DEFAULT_SIZE * 4 {
      var target := ShareForUnshift(s, a, argc);
      return Ok(target);
    } else {
      MoveForUnshift(s, a, argc);
      return Ok(a);
    }
  }

  // Within a buffer of its own the array moves its elements up.
  method MoveForUnshift(s: ObjectSpace, a: RArray, argc: nat)
    requires s.Valid() && a in s.model && !a.frozen && !a.shared && a.len + argc <= s.Capa(a)
    modifies s`model, a`cells, a.ptr
    ensures RoomMade(s, a, argc, old(s.model), old(a.len)) && !a.shared
  {
    Seen(s, a);
    SlotsHoldElts(s, a);
    OwnWritable(s, a);
    assert Slots(a)[..a.len] == Slots(a)[0..0 + a.len];
    MoveSlots(s, a, argc, 0, a.len);
  }

  method ShareForUnshift(s: ObjectSpace, a: RArray, argc: nat) returns (target: RArray)
    requires s.Valid() && a in s.model && s.Ok(a) && a.Owns() && !a.frozen && a.len + argc <= a.capa
    modifies s, s.repr
    ensures s.Valid() && s.all >= old(s.all) && fresh(s.repr - old(s.repr))
    ensures !target.shared && RoomMade(s, a, argc, old(s.model), old(a.len))
  {
    var len := a.len;
    var capa := s.Capa(a);
    var root := s.MakeShared(a);
    Seen(s, a);
    SlotsHoldElts(s, a);
    target := MakeRoomForUnshift(s, a, argc, capa, len);
  }

  ghost predicate RoomMade(s: ObjectSpace, a: RArray, argc: nat, before: map<RArray, Plain>, len: nat)
    requires a in before
    reads s, s.repr, s.all, a, a.ptr
  {
    && Writable(s, a) && a.len == len == |before[a].elts| && argc + len <= |Slots(a)|
    && Slots(a)[argc..argc + len] == before[a].elts
    && s.model == before[a := Plain(Slots(a)[..len], false)]
  }

  // ary_ensure_room_for_unshift
  method EnsureRoomForUnshift(s: ObjectSpace, a: RArray, argc: nat) returns (r: Result<RArray>)
    requires s.Valid() && a in s.model
    modifies s, s.repr
    ensures s.Valid() && s.all >= old(s.all) && fresh(s.repr - old(s.repr))
    ensures old(a.frozen) ==> r == Raised(FrozenError) && s.model == old(s.model)
    ensures !old(a.frozen) ==> r.Ok? && !r.value.shared && RoomMade(s, a, argc, old(s.model), old(a.len))
  {
    Seen(s, a);
    var len := a.len;
    var newLen := len + argc;
    if !a.shared {
      r := ModifyForUnshift(s, a, argc);
    } else {
      assert s.Ok(a.root);
      var capa := a.root.len;
      if a.root.capa != 1 {
        r := ModifyForUnshift(s, a, argc);
      } else if newLen > capa {
        r := ModifyForUnshift(s, a, argc);
      } else {
        if a.frozen {
          return Raised(FrozenError);
        }
        SlotsHoldElts(s, a);
        var target := MakeRoomForUnshift(s, a, argc, capa, len);
        return Ok(target);
      }
    }
  }

  // rb_ary_unshift_m
  method Unshift(s: ObjectSpace, a: RArray, items: seq<Value>) returns (r: Result<()>)
    requires s.Valid() && a in s.model
    modifies s, s.repr
    ensures s.Valid() && s.all >= old(s.all) && fresh(s.repr - old(s.repr))
    ensures if old(s.model[a].frozen) then r == Raised(FrozenError) && s.model == old(s.model)
            else r == Ok(()) && s.model == old(s.model)[a := Plain(items + old(s.model[a].elts), false)]
  {
    Seen(s, a);
    if |items| == 0 {
      if a.frozen {
        return Raised(FrozenError);
      }
      assert items + s.model[a].elts == s.model[a].elts && s.model == s.model[a := s.model[a]];
      return Ok(());
    }
    hide ObjectSpace.Valid, ObjectSpace.Ok, Slots, RArray.Elts;
    r := UnshiftSome(s, a, items);
  }

  method UnshiftSome(s: ObjectSpace, a: RArray, items: seq<Value>) returns (r: Result<()>)
    requires s.Valid() && a in s.model && 0 < |items|
    modifies s, s.repr
    ensures s.Valid() && s.all >= old(s.all) && fresh(s.repr - old(s.repr))
    ensures if old(s.model[a].frozen) then r == Raised(FrozenError) && s.model == old(s.model)
            else r == Ok(()) && s.model == old(s.model)[a := Plain(items + old(s.model[a].elts), false)]
  {
    Seen(s, a);
    var len := a.len;
    var target := EnsureRoomForUnshift(s, a, |items|);
    if target.Raised? {
      return Raised(target.error);
    }
    Seen(s, a);
    assert a.ptr in s.repr;
    hide Slots, RArray.Elts, ObjectSpace.Ok, ObjectSpace.Valid;
    PutInFront(s, a, items, len);
    return Ok(());
  }

  method PutInFront(s: ObjectSpace, a: RArray, items: seq<Value>, len: nat)
    requires Writable(s, a) && a in s.model && len + |items| <= |Slots(a)|
    modifies s`model, a`len, a`cells, a.ptr
    ensures s.Valid()
    ensures s.model == old(s.model)[a := Plain(items + old(Slots(a)[|items|..|items| + len]), false)]
  {
    Prepended(Slots(a), items, len);
    hide Slots, RArray.Elts, ObjectSpace.Ok;
    Fill(s, a, 0, items);
    SetLen(s, a, len + |items|);
  }

  lemma Prepended(slots: seq<Value>, items: seq<Value>, len: nat)
    requires |items| + len <= |slots|
    ensures (slots[..0] + items + slots[0 + |items|..])[..len + |items|] == items + slots[|items|..|items| + len]
  {
  }

  // ---- store, replace, clear ----

  // Writing past the end fills the gap with nil.
  function Stored(e: seq<Value>, idx: nat, val: Value): seq<Value>
  {
    if idx < |e| then e[idx := val] else e + seq(idx - |e|, _ => Nil) + [val]
  }

  // The element is there, the others are as they were, and nil fills the gap before it.
  lemma StoredAt(e: seq<Value>, idx: nat, val: Value)
    ensures |Stored(e, idx, val)| == if idx < |e| then |e| else idx + 1
    ensures Stored(e, idx, val)[idx] == val
    ensures forall i :: 0 <= i < |e| && i != idx ==> Stored(e, idx, val)[i] == e[i]
    ensures forall i :: |e| <= i < idx ==> Stored(e, idx, val)[i] == Nil
  {
  }

  // rb_ary_store
  method Store(s: ObjectSpace, a: RArray, index: int, val: Value) returns (r: Result<()>)
    requires s.Valid() && a in s.model
    modifies s, s.repr
    ensures s.Valid() && s.all >= old(s.all) && fresh(s.repr - old(s.repr))
    ensures var e := old(s.model[a].elts);
            var idx := if index < 0 then index + |e| else index;
            if idx < 0 then r == Raised(IndexError) && s.model == old(s.model)
            else if old(s.model[a].frozen) then r == Raised(FrozenError) && s.model == old(s.model)
            else r == Ok(()) && s.model == old(s.model)[a := Plain(Stored(e, idx, val), false)]
  {
    Seen(s, a);
    SlotsHoldElts(s, a);
    var len := a.len;
    var idx := index;
    if idx < 0 {
      idx := idx + len;
      if idx < 0 {
        return Raised(IndexError);
      }
    }
    if a.frozen {
      return Raised(FrozenError);
    }
    s.CancelSharing(a);
    if idx >= s.Capa(a) {
      Seen(s, a);
      SlotsHoldElts(s, a);
      s.DoubleCapa(a, idx);
    }
    OwnWritable(s, a);
    SlotsHoldElts(s, a);
    Seen(s, a);
    StoreInRoom(s, a, idx, val);
    return Ok(());
  }

  method StoreInRoom(s: ObjectSpace, a: RArray, idx: nat, val: Value)
    requires Writable(s, a) && a in s.model && idx < |Slots(a)| && a.len <= |Slots(a)| && !a.shared
    requires s.model[a].elts == Slots(a)[..a.len]
    modifies s`model, a`len, a`cells, a.ptr
    ensures s.Valid()
    ensures s.model == old(s.model)[a := Plain(Stored(old(s.model[a].elts), idx, val), false)]
  {
    ghost var e := s.model[a].elts;
    FillGap(s, a, idx);
    // assert(!ARY_SHARED_P(a))
    assert !a.shared;
    OwnWritable(s, a);
    StoredIs(Slots(a), e, a.len, idx, val);
    Fill(s, a, idx, [val]);
  }

  // The elements between the old end and `idx` become nil, and the array reaches past `idx`.
  method FillGap(s: ObjectSpace, a: RArray, idx: nat)
    requires Writable(s, a) && a in s.model && idx < |Slots(a)| && a.len <= |Slots(a)| && !a.shared
    requires s.model[a].elts == Slots(a)[..a.len]
    modifies s`model, a`len, a`cells, a.ptr
    ensures s.Valid() && s.Visible(a)
    ensures a.len == (if idx >= old(a.len) then idx + 1 else old(a.len)) <= |Slots(a)|
    ensures GapFilled(Slots(a), old(s.model[a].elts), idx)
    ensures s.model == old(s.model)[a := Plain(Slots(a)[..a.len], false)]
  {
    Seen(s, a);
    var len := a.len;
    if idx < len {
      assert s.model == s.model[a := s.model[a]];
      return;
    }
    hide ObjectSpace.Ok, ObjectSpace.Valid, RArray.Elts, Slots;
    if idx > len {
      FillNil(s, a, len, idx);
    }
    SetLen(s, a, idx + 1);
  }

  // ary_mem_clear between the old length and the new element
  method FillNil(s: ObjectSpace, a: RArray, len: nat, idx: nat)
    requires Writable(s, a) && a in s.model && len == a.len < idx < |Slots(a)|
    requires s.model[a].elts == Slots(a)[..len]
    modifies s`model, a`cells, a.ptr
    ensures Writable(s, a) && |Slots(a)| == old(|Slots(a)|) && GapFilled(Slots(a), old(s.model[a].elts), idx)
    ensures s.model == old(s.model)[a := Plain(Slots(a)[..len], false)]
  {
    Fill(s, a, len, seq(idx - len + 1, _ => Nil));
  }

  ghost predicate GapFilled(slots: seq<Value>, e: seq<Value>, idx: nat)
  {
    |e| <= |slots| && slots[..|e|] == e && forall i :: |e| <= i < idx && i < |slots| ==> slots[i] == Nil
  }

  lemma StoredIs(slots: seq<Value>, e: seq<Value>, len: nat, idx: nat, val: Value)
    requires GapFilled(slots, e, idx) && idx < len <= |slots| && len == (if idx >= |e| then idx + 1 else |e|)
    ensures (slots[..idx] + [val] + slots[idx + 1..])[..len] == Stored(e, idx, val)
  {
  }

  // A shared array gives up its window, and is empty.
  method Detach(s: ObjectSpace, a: RArray)
    requires s.Valid() && a in s.model && s.Ok(a) && a.shared && !a.frozen
    modifies s`model, a`shared, a`embed, a`len, a.root`capa, a.root`sharers
    ensures s.Valid() && !a.shared && a.embed
    ensures s.model == old(s.model)[a := Plain([], false)]
  {
    Seen(s, a);
    assert s.Ok(a.root);
    Release(a);
    assert a.Elts() == [];
    hide RArray.Elts;
    forall b | b in s.all && b != a ensures s.Ok(b) {
      assert old(s.Ok(b));
    }
    s.Settle(a);
  }

  method Release(a: RArray)
    requires a.root != null && a.root != a
    modifies a`shared, a`embed, a`len, a.root`capa, a.root`sharers
    ensures !a.shared && a.embed && a.len == 0
    ensures a.root.sharers == old(a.root.sharers) - {a}
    ensures a.root.capa == (if old(a.root.capa) > 1 then old(a.root.capa) - 1 else old(a.root.capa))
  {
    ObjectSpace.Unshare(a);
    a.embed := true;
    a.len := 0;
  }

  // rb_ary_clear
  method Clear(s: ObjectSpace, a: RArray) returns (r: Result<()>)
    requires s.Valid() && a in s.model
    modifies s, s.repr
    ensures s.Valid() && s.all >= old(s.all) && fresh(s.repr - old(s.repr))
    ensures if old(s.model[a].frozen) then r == Raised(FrozenError) && s.model == old(s.model)
            else r == Ok(()) && s.model == old(s.model)[a := Plain([], false)]
  {
    Seen(s, a);
    if a.frozen {
      return Raised(FrozenError);
    }
    if a.shared {
      Detach(s, a);
    } else {
      SetLen(s, a, 0);
      if DEFAULT_SIZE * 2 < s.Capa(a) {
        Seen(s, a);
        s.ResizeCapa(a, DEFAULT_SIZE * 2);
      }
    }
    return Ok(());
  }

  // rb_ary_replace
  method Replace(s: ObjectSpace, copy: RArray, orig: RArray) returns (r: Result<()>)
    requires s.Valid() && copy in s.model && orig in s.model
    modifies s, s.repr
    ensures s.Valid() && s.all >= old(s.all) && fresh(s.repr - old(s.repr))
    ensures if old(s.model[copy].frozen) then r == Raised(FrozenError) && s.model == old(s.model)
            else r == Ok(()) && s.model == old(s.model)[copy := Plain(old(s.model[orig].elts), false)]
  {
    Seen(s, copy);
    Seen(s, orig);
    if copy.frozen {
      return Raised(FrozenError);
    }
    if copy == orig {
      assert s.model == s.model[copy := s.model[copy]];
      return Ok(());
    }
    SlotsHoldElts(s, orig);
    if orig.len <= EMBED_LEN_MAX {
      ReplaceSmall(s, copy, Slots(orig)[..orig.len]);
    } else {
      var root := s.MakeShared(orig);
      Seen(s, copy);
      ReplaceByWindow(s, copy, orig, root);
    }
    return Ok(());
  }

  method ReplaceSmall(s: ObjectSpace, copy: RArray, elts: seq<Value>)
    requires s.Valid() && copy in s.model && !copy.frozen && |elts| <= EMBED_LEN_MAX
    modifies s, s.repr
    ensures s.Valid() && s.all == old(s.all) && s.repr == old(s.repr)
    ensures s.model == old(s.model)[copy := Plain(elts, false)]
  {
    Seen(s, copy);
    if copy.shared {
      Detach(s, copy);
      Seen(s, copy);
    } else if !copy.embed {
      // the buffer is freed: no other array uses it
      s.OwnerUnaliased(copy);
    }
    FillSmall(s, copy, elts);
  }

  method FillSmall(s: ObjectSpace, a: RArray, elts: seq<Value>)
    requires s.Valid() && a in s.model && s.Ok(a) && !a.frozen && !a.shared && |elts| <= EMBED_LEN_MAX
    modifies s`model, a`embed, a`cells, a`len
    ensures s.Valid()
    ensures s.model == old(s.model)[a := Plain(elts, false)]
  {
    a.embed := true;
    a.cells := elts + a.cells[|elts|..];
    a.len := |elts|;
    assert a.Elts() == elts;
    hide RArray.Elts;
    forall b | b in s.all && b != a ensures s.Ok(b) {
      assert old(s.Ok(b));
    }
    s.Settle(a);
  }

  method ReplaceByWindow(s: ObjectSpace, copy: RArray, orig: RArray, root: RArray)
    requires s.Valid() && copy in s.model && orig in s.model && copy != orig && !copy.frozen && !orig.embed
    requires root in s.all && root.isRoot && !root.embed && root.ptr == orig.ptr && orig.len == |s.model[orig].elts|
    requires if orig.shared then orig.root == root else orig == root
    modifies s, s.repr
    ensures s.Valid() && s.all == old(s.all) && s.repr == old(s.repr)
    ensures s.model == old(s.model)[copy := Plain(old(s.model[orig].elts), false)]
  {
    Seen(s, copy);
    Seen(s, orig);
    if copy.shared {
      Detach(s, copy);
      Seen(s, copy);
    } else if !copy.embed {
      // the buffer is freed: no other array uses it
      s.OwnerUnaliased(copy);
    }
    assert s.model[orig].elts[0..0 + orig.len] == s.model[orig].elts;
    BecomeWindow(s, copy, orig, root, 0, orig.len);
  }

  // ---- creation and freezing ----

  // ary_new
  method NewWithCapa(s: ObjectSpace, capa: nat) returns (a: RArray)
    requires s.Valid()
    modifies s, s.repr
    ensures s.Valid() && s.all >= old(s.all) && fresh(s.repr - old(s.repr)) && fresh(a)
    ensures s.model == old(s.model)[a := Plain([], false)]
    ensures Writable(s, a) && a.len == 0 && capa <= |Slots(a)| && a in s.repr && a.ptr in s.repr
  {
    a := NewEmbedded(s, []);
    Seen(s, a);
    if capa > EMBED_LEN_MAX {
      s.ResizeCapa(a, capa);
    }
    OwnWritable(s, a);
    SlotsHoldElts(s, a);
    Seen(s, a);
  }

  // rb_ary_new_from_values
  method NewFromValues(s: ObjectSpace, vals: seq<Value>) returns (a: RArray)
    requires s.Valid()
    modifies s, s.repr
    ensures s.Valid() && s.all >= old(s.all) && fresh(s.repr - old(s.repr)) && fresh(a)
    ensures s.model == old(s.model)[a := Plain(vals, false)]
  {
    a := NewWithCapa(s, |vals|);
    hide Slots;
    if |vals| > 0 {
      Fill(s, a, 0, vals);
      assert Slots(a)[..|vals|] == vals;
      SetLen(s, a, |vals|);
    } else {
      assert vals == [];
    }
  }

  // rb_ary_freeze
  method Freeze(s: ObjectSpace, a: RArray)
    requires s.Valid() && a in s.model
    modifies s`model, a`frozen
    ensures s.Valid() && s.model == old(s.model)[a := Plain(old(s.model[a].elts), true)]
  {
    Seen(s, a);
    assert a.Elts() == s.model[a].elts;
    hide RArray.Elts;
    a.frozen := true;
    forall b | b in s.all && b != a ensures s.Ok(b) {
      assert old(s.Ok(b));
    }
    s.Settle(a);
  }
}
