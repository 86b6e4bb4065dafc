/** The reader of read.c as it is kept: a buffer with a cursor, nine task slots of which `ridx` is
    the current one, and reply objects that are linked into their parent when they are created. */
module ReplyObjects {
  import opened Wrappers
  import opened Resp

  /** An object on the reply heap; a block has one pointer for each element, null at first. */
  datatype Object = Leaf(reply: Reply) | Block(slots: seq<Option<nat>>)

  /** The reply at address `id`, if it is complete and made of objects between `id` and `hi`. */
  ghost function Tree(objs: seq<Object>, id: nat, hi: nat): Option<Reply>
    requires id < hi <= |objs|
    decreases hi - id, 1, 0
  {
    match objs[id]
    case Leaf(r) => Some(r)
    case Block(slots) =>
      var elements := Trees(objs, id, slots, hi);
      if elements.None? then None else Some(Array(elements.value))
  }

  ghost function Trees(objs: seq<Object>, lo: nat, slots: seq<Option<nat>>, hi: nat): (r: Option<seq<Reply>>)
    requires lo < hi <= |objs|
    ensures r.Some? ==> |r.value| == |slots|
    decreases hi - lo, 0, |slots|
  {
    if slots == [] then Some([])
    else
      var n := |slots| - 1;
      var before := Trees(objs, lo, slots[..n], hi);
      if before.None? || slots[n].None? || !(lo < slots[n].value < hi) then None
      else
        var last := Tree(objs, slots[n].value, hi);
        if last.None? then None else Some(before.value + [last.value])
  }

  /** A complete reply does not depend on other objects. */
  lemma {:induction false} TreeFrame(objs: seq<Object>, id: nat, hi: nat, objs': seq<Object>, hi': nat)
    requires id < hi <= |objs| && hi <= hi' <= |objs'|
    requires forall k | id <= k < hi :: objs'[k] == objs[k]
    requires Tree(objs, id, hi).Some?
    ensures Tree(objs', id, hi') == Tree(objs, id, hi)
    decreases hi - id, 1, 0
  {
    match objs[id]
    case Leaf(_) =>
    case Block(slots) => TreesFrame(objs, id, slots, hi, objs', hi');
  }

  lemma {:induction false} TreesFrame(objs: seq<Object>, lo: nat, slots: seq<Option<nat>>, hi: nat,
                                      objs': seq<Object>, hi': nat)
    requires lo < hi <= |objs| && hi <= hi' <= |objs'|
    requires forall k | lo < k < hi :: objs'[k] == objs[k]
    requires Trees(objs, lo, slots, hi).Some?
    ensures Trees(objs', lo, slots, hi') == Trees(objs, lo, slots, hi)
    decreases hi - lo, 0, |slots|
  {
    if slots != [] {
      var n := |slots| - 1;
      TreesFrame(objs, lo, slots[..n], hi, objs', hi');
      TreeFrame(objs, slots[n].value, hi, objs', hi');
    }
  }

  /** The objects below `base` are still what they were. */
  ghost predicate Kept(was: seq<Object>, base: nat, objs: seq<Object>, base': nat) {
    base <= |was| && base <= base' <= |objs| && forall k | 0 <= k < base :: objs[k] == was[k]
  }

  /** The replies at the addresses `roots`, of objects below `hi`. */
  ghost predicate Roots(objs: seq<Object>, hi: nat, roots: seq<nat>, vs: seq<Reply>) {
    && |roots| == |vs| && hi <= |objs|
    && forall i | 0 <= i < |roots| :: roots[i] < hi && Tree(objs, roots[i], hi) == Some(vs[i])
  }

  /** Replies that were handed out do not depend on what is read later. */
  lemma RootsKept(was: seq<Object>, base: nat, objs: seq<Object>, base': nat, roots: seq<nat>, vs: seq<Reply>)
    requires Kept(was, base, objs, base') && Roots(was, base, roots, vs)
    ensures Roots(objs, base', roots, vs)
  {
    forall i | 0 <= i < |roots|
      ensures Tree(objs, roots[i], base') == Some(vs[i])
    {
      TreeFrame(was, roots[i], base, objs, base');
    }
  }

  // ----- the task stack -----

  /** A slot of `rstack`; `obj` is the array object of a task whose elements are being read. */
  datatype Task = Task(kind: Option<Kind>, elements: int, idx: int, obj: nat)

  /** The bound below which the objects of frame i's elements lie. */
  ghost function Limit(objs: seq<Object>, tasks: seq<Task>, r: nat, i: nat): nat
    requires i < r < |tasks|
  {
    if i + 1 < r then tasks[i + 1].obj else |objs|
  }

  ghost predicate FrameHolds(objs: seq<Object>, tasks: seq<Task>, r: nat, f: Frame, i: nat)
    requires i < r < |tasks|
  {
    var o, hi, idx := tasks[i].obj, Limit(objs, tasks, r, i), tasks[i + 1].idx;
    && tasks[i].kind == Some(MultiBulk)
    && o < hi <= |objs| && objs[o].Block?
    && |objs[o].slots| == tasks[i].elements == f.total
    && 0 <= idx < f.total
    && Trees(objs, o, objs[o].slots[..idx], hi) == Some(f.elements)
    && (i + 1 < r ==> objs[o].slots[idx] == Some(tasks[i + 1].obj))
  }

  /** The stack with current task r holds the open arrays `frames`. */
  ghost predicate Linked(objs: seq<Object>, tasks: seq<Task>, r: nat, frames: seq<Frame>) {
    && r < |tasks| && |frames| == r
    && forall i | 0 <= i < r :: FrameHolds(objs, tasks, r, frames[i], i)
  }

  /** The current item is the complete reply `v` at address `c`, linked into its parent. */
  ghost predicate Filled(objs: seq<Object>, tasks: seq<Task>, r: nat, c: nat, v: Reply)
    requires r < |tasks|
  {
    && c < |objs| && Tree(objs, c, |objs|) == Some(v)
    && (r > 0 ==>
      var o := tasks[r - 1].obj;
      && o < c && objs[o].Block? && 0 <= tasks[r].idx < |objs[o].slots|
      && objs[o].slots[tasks[r].idx] == Some(c))
  }

  /** The heap after an object was created for the current task. */
  function Created(objs: seq<Object>, tasks: seq<Task>, r: nat, o: Object): seq<Object>
    requires r < |tasks|
  {
    if r == 0 then objs + [o]
    else
      var p, idx := tasks[r - 1].obj, tasks[r].idx;
      if p < |objs| && objs[p].Block? && 0 <= idx < |objs[p].slots|
      then objs[p := Block(objs[p].slots[idx := Some(|objs|)])] + [o]
      else objs + [o]
  }

  lemma CreatedLinks(objs: seq<Object>, tasks: seq<Task>, r: nat, frames: seq<Frame>, o: Object)
    requires Linked(objs, tasks, r, frames)
    ensures Linked(Created(objs, tasks, r, o), tasks, r, frames)
  {
    if r > 0 {
      assert FrameHolds(objs, tasks, r, frames[r - 1], r - 1);
      var objs' := Created(objs, tasks, r, o);
      forall i | 0 <= i < r
        ensures FrameHolds(objs', tasks, r, frames[i], i)
      {
        assert FrameHolds(objs, tasks, r, frames[i], i);
        var p, hi := tasks[i].obj, Limit(objs, tasks, r, i);
        if i + 1 < r { ObjectsAscend(objs, tasks, r, frames, i + 1, r - 1); }
        assert objs'[p].slots[..tasks[i + 1].idx] == objs[p].slots[..tasks[i + 1].idx];
        TreesFrame(objs, p, objs[p].slots[..tasks[i + 1].idx], hi, objs', Limit(objs', tasks, r, i));
      }
    }
  }

  lemma {:induction false} ObjectsAscend(objs: seq<Object>, tasks: seq<Task>, r: nat, frames: seq<Frame>, i: nat, j: nat)
    requires Linked(objs, tasks, r, frames) && i <= j < r
    ensures tasks[i].obj <= tasks[j].obj
    decreases j - i
  {
    if i < j {
      assert FrameHolds(objs, tasks, r, frames[i], i);
      ObjectsAscend(objs, tasks, r, frames, i + 1, j);
    }
  }

  lemma CreatedFills(objs: seq<Object>, tasks: seq<Task>, r: nat, frames: seq<Frame>, o: Object, v: Reply)
    requires Linked(objs, tasks, r, frames)
    requires o == Leaf(v) || (o == Block([]) && v == Array([]))
    ensures Filled(Created(objs, tasks, r, o), tasks, r, |objs|, v)
  {
    if r > 0 { assert FrameHolds(objs, tasks, r, frames[r - 1], r - 1); }
  }

  /** An array whose last element is filled is itself complete and in its parent. */
  lemma TreesSnoc(objs: seq<Object>, lo: nat, slots: seq<Option<nat>>, hi: nat, elements: seq<Reply>, v: Reply)
    requires lo < hi <= |objs| && slots != [] && Trees(objs, lo, slots[..|slots| - 1], hi) == Some(elements)
    requires var last := slots[|slots| - 1];
             last.Some? && lo < last.value < hi && Tree(objs, last.value, hi) == Some(v)
    ensures Trees(objs, lo, slots, hi) == Some(elements + [v])
  {
  }

  lemma PopFills(objs: seq<Object>, tasks: seq<Task>, r: nat, frames: seq<Frame>, c: nat, v: Reply)
    requires Linked(objs, tasks, r, frames) && Filled(objs, tasks, r, c, v)
    requires r > 0 && tasks[r].idx == tasks[r - 1].elements - 1
    ensures |frames[r - 1].elements| + 1 == frames[r - 1].total
    ensures Filled(objs, tasks, r - 1, tasks[r - 1].obj, Array(frames[r - 1].elements + [v]))
    ensures Linked(objs, tasks, r - 1, frames[..r - 1])
  {
    var o, idx := tasks[r - 1].obj, tasks[r].idx;
    assert FrameHolds(objs, tasks, r, frames[r - 1], r - 1);
    TreesSnoc(objs, o, objs[o].slots, |objs|, frames[r - 1].elements, v);
    if r > 1 { assert FrameHolds(objs, tasks, r, frames[r - 2], r - 2); }
    OuterLinks(objs, tasks, r, frames);
  }

  /** The arrays around the innermost one. */
  lemma OuterLinks(objs: seq<Object>, tasks: seq<Task>, r: nat, frames: seq<Frame>)
    requires Linked(objs, tasks, r, frames) && r > 0
    ensures Linked(objs, tasks, r - 1, frames[..r - 1])
  {
    var outer := frames[..r - 1];
    forall i | 0 <= i < r - 1
      ensures FrameHolds(objs, tasks, r - 1, outer[i], i)
    {
      assert FrameHolds(objs, tasks, r, frames[i], i);
      var p := tasks[i].obj;
      TreesFrame(objs, p, objs[p].slots[..tasks[i + 1].idx], Limit(objs, tasks, r, i),
                 objs, Limit(objs, tasks, r - 1, i));
    }
  }

  /** The next element of the innermost array. */
  lemma AdvanceLinks(objs: seq<Object>, tasks: seq<Task>, r: nat, frames: seq<Frame>, c: nat, v: Reply, t: Task)
    requires Linked(objs, tasks, r, frames) && Filled(objs, tasks, r, c, v)
    requires r > 0 && tasks[r].idx != tasks[r - 1].elements - 1 && t.idx == tasks[r].idx + 1
    ensures |frames[r - 1].elements| + 1 < frames[r - 1].total
    ensures Linked(objs, tasks[r := t], r,
                   frames[..r - 1] + [Frame(frames[r - 1].total, frames[r - 1].elements + [v])])
  {
    var o, idx, tasks' := tasks[r - 1].obj, tasks[r].idx, tasks[r := t];
    assert FrameHolds(objs, tasks, r, frames[r - 1], r - 1);
    var slots := objs[o].slots;
    assert slots[..idx + 1][..idx] == slots[..idx];
    assert Trees(objs, o, slots[..idx + 1], |objs|) == Some(frames[r - 1].elements + [v]);
    forall i | 0 <= i < r - 1
      ensures FrameHolds(objs, tasks', r, frames[i], i)
    {
      assert FrameHolds(objs, tasks, r, frames[i], i);
    }
  }

  ghost predicate At(objs: seq<Object>, tasks: seq<Task>, r: int, frames: seq<Frame>, c: nat, v: Reply) {
    0 <= r < |tasks| && Fits(frames) && Linked(objs, tasks, r, frames) && Filled(objs, tasks, r, c, v)
  }

  /** One round of `moveToNextTask` that leaves a complete array. */
  lemma PopStep(objs: seq<Object>, tasks: seq<Task>, r: nat, frames: seq<Frame>, c: nat, v: Reply, rest: string)
    requires At(objs, tasks, r, frames, c, v) && r > 0 && tasks[r].idx == tasks[r - 1].elements - 1
    ensures var w, outer := Array(frames[r - 1].elements + [v]), frames[..r - 1];
            && At(objs, tasks, r - 1, outer, tasks[r - 1].obj, w)
            && Complete(frames, v, rest) == Complete(outer, w, rest)
  {
    PopFills(objs, tasks, r, frames, c, v);
  }

  /** The task at which `moveToNextTask` has left all arrays that are complete. */
  ghost function PopTo(tasks: seq<Task>, r: nat): (q: nat)
    requires r < |tasks|
    ensures q <= r
  {
    if r > 0 && tasks[r].idx == tasks[r - 1].elements - 1 then PopTo(tasks, r - 1) else r
  }

  lemma {:induction false} PopAll(objs: seq<Object>, tasks: seq<Task>, r: nat, frames: seq<Frame>, c: nat, v: Reply,
                                  rest: string)
    returns (frames': seq<Frame>, at: nat, w: Reply)
    requires At(objs, tasks, r, frames, c, v)
    ensures var q := PopTo(tasks, r);
            && At(objs, tasks, q, frames', at, w) && Complete(frames', w, rest) == Complete(frames, v, rest)
            && at == (if q == r then c else tasks[q].obj)
  {
    if r == 0 || tasks[r].idx != tasks[r - 1].elements - 1 {
      frames', at, w := frames, c, v;
    } else {
      var outer, whole, o := frames[..r - 1], Array(frames[r - 1].elements + [v]), tasks[r - 1].obj;
      PopStep(objs, tasks, r, frames, c, v, rest);
      frames', at, w := PopAll(objs, tasks, r - 1, outer, o, whole, rest);
    }
  }

  /** The last round of `moveToNextTask`, inside an array that is not complete. */
  lemma AdvanceStep(objs: seq<Object>, tasks: seq<Task>, r: nat, frames: seq<Frame>, c: nat, v: Reply, rest: string,
                    t: Task)
    requires At(objs, tasks, r, frames, c, v) && r > 0
    requires tasks[r].idx != tasks[r - 1].elements - 1 && t.idx == tasks[r].idx + 1
    ensures var result := Complete(frames, v, rest);
            result.Next? && Linked(objs, tasks[r := t], r, result.frames)
  {
    AdvanceLinks(objs, tasks, r, frames, c, v, t);
  }

  /** The kind of the current item is not part of the open arrays. */
  lemma KindLinks(objs: seq<Object>, tasks: seq<Task>, r: nat, frames: seq<Frame>, kind: Option<Kind>)
    requires Linked(objs, tasks, r, frames)
    ensures Linked(objs, tasks[r := tasks[r].(kind := kind)], r, frames)
  {
    forall i | 0 <= i < r
      ensures FrameHolds(objs, tasks[r := tasks[r].(kind := kind)], r, frames[i], i)
    {
      assert FrameHolds(objs, tasks, r, frames[i], i);
    }
  }

  /** An array of n elements is opened. */
  lemma OpenLinks(objs: seq<Object>, tasks: seq<Task>, r: nat, frames: seq<Frame>, n: nat)
    requires Linked(objs, tasks, r, frames) && n > 0 && r + 1 < |tasks|
    requires tasks[r].kind == Some(MultiBulk)
    ensures var objs' := Created(objs, tasks, r, Block(seq(n, _ => None)));
            var tasks' := tasks[r := tasks[r].(elements := n, obj := |objs|)][r + 1 := Task(None, -1, 0, 0)];
            Linked(objs', tasks', r + 1, frames + [Frame(n, [])])
  {
    var block := Block(seq(n, _ => None));
    var objs' := Created(objs, tasks, r, block);
    var tasks' := tasks[r := tasks[r].(elements := n, obj := |objs|)][r + 1 := Task(None, -1, 0, 0)];
    var frames' := frames + [Frame(n, [])];
    CreatedLinks(objs, tasks, r, frames, block);
    forall i | 0 <= i < r + 1
      ensures FrameHolds(objs', tasks', r + 1, frames'[i], i)
    {
      if i < r {
        assert FrameHolds(objs, tasks, r, frames[i], i);
        assert FrameHolds(objs', tasks, r, frames[i], i);
        if i == r - 1 {
          var p := tasks[i].obj;
          assert objs'[p].slots[..tasks[i + 1].idx] == objs[p].slots[..tasks[i + 1].idx];
          TreesFrame(objs, p, objs[p].slots[..tasks[i + 1].idx], |objs|, objs', |objs|);
        }
      }
    }
  }
}

module ReaderClass {
  import opened Wrappers
  import opened Decimals
  import opened Resp
  import opened ReplyObjects

  /** `seekNewline`. */
  method SeekNewline(s: string) returns (r: Option<nat>)
    ensures r == LineEnd(s)
  {
    var pos, len := 0, |s| - 1;
    while pos < len
      invariant 0 <= pos && (pos <= len || len < 0)
      invariant forall k: nat | k < pos :: !NewlineAt(s, k)
    {
      while pos < len && s[pos] != '\r'
        invariant 0 <= pos <= len
        invariant forall k: nat | k < pos :: !NewlineAt(s, k)
      {
        pos := pos + 1;
      }
      if pos == len {
        return None;
      }
      if s[pos + 1] == '\n' {
        assert NewlineAt(s, pos);
        return Some(pos);
      }
      pos := pos + 1;
    }
    return None;
  }

  /** `processLineItem`: an error, a status or an integer. */
  method ProcessLineItem(kind: Kind, s: string, ghost depth: nat) returns (h: Head)
    requires kind !in {BulkString, MultiBulk}
    ensures h == HeadOf(kind, s, depth)
  {
    var end := SeekNewline(s);
    if end.None? {
      return More;
    }
    var line, rest := s[..end.value], s[end.value + 2..];
    if kind == IntegerLine {
      var v := String2ll(line);
      return if v.None? then Bad(BadInteger) else Whole(Integer(v.value), rest);
    }
    return Whole(if kind == ErrorLine then Error(line) else Status(line), rest);
  }

  /** `processBulkItem`. */
  method ProcessBulkItem(s: string, ghost depth: nat) returns (h: Head)
    ensures h == HeadOf(BulkString, s, depth)
  {
    var end := SeekNewline(s);
    if end.None? {
      return More;
    }
    var bytelen := end.value + 2;
    var len := String2ll(s[..end.value]);
    if len.None? {
      return Bad(BadBulkLength);
    }
    if len.value < -1 {
      return Bad(BulkLengthOutOfRange);
    }
    if len.value == -1 {
      return Whole(Nil, s[bytelen..]);
    }
    ghost var rest := s[bytelen..];
    bytelen := bytelen + len.value + 2;
    if bytelen <= |s| {
      assert s[end.value + 2..][..len.value] == rest[..len.value];
      assert s[bytelen..] == rest[len.value + 2..];
      return Whole(String(s[end.value + 2..][..len.value]), s[bytelen..]);
    }
    return More;
  }

  /** `processMultiBulkItem`. */
  method ProcessMultiBulkItem(s: string, depth: nat) returns (h: Head)
    ensures h == HeadOf(MultiBulk, s, depth)
  {
    if depth >= MAX_OPEN {
      return Bad(TooDeep);
    }
    var end := SeekNewline(s);
    if end.None? {
      return More;
    }
    var elements := String2ll(s[..end.value]);
    if elements.None? {
      return Bad(BadMultiBulkLength);
    }
    var n, rest := elements.value, s[end.value + 2..];
    if n < -1 || n > INT_MAX {
      return Bad(MultiBulkLengthOutOfRange);
    }
    if n == -1 {
      return Whole(Nil, rest);
    }
    return if n == 0 then Whole(Array([]), rest) else Open(n, rest);
  }

  lemma RunEmpty(frames: seq<Frame>, kind: Option<Kind>)
    requires Fits(frames) && (kind == Some(MultiBulk) ==> |frames| < MAX_OPEN)
    ensures Run(frames, kind, "") == Stuck(frames, kind, "")
  {
    assert Step(frames, kind, "") == Stuck(frames, kind, "");
  }

  lemma SuffixOfBuffer(buf: string, pos: nat, rest: string)
    requires pos <= |buf| && Suffix(rest, buf[pos..])
    ensures |rest| <= |buf| && rest == buf[|buf| - |rest|..]
  {
  }

  class RedisReader {
    var err: Option<Failure>
    var buf: string
    var pos: nat
    const rstack: array<Task>
    var ridx: int
    var reply: Option<nat>
    var objs: seq<Object>

    ghost var model: Reader

    /** The fields stand for `model`. */
    ghost predicate Consistent()
      reads this, rstack
    {
      && rstack.Length == 9
      && -1 <= ridx <= 8 && pos <= |buf|
      && err == model.error && model.unread == buf[pos..]
      && Fits(model.frames)
      && (ridx < 0 ==> model.frames == [] && model.kind == None)
      && (ridx >= 0 ==> Linked(objs, rstack[..], ridx, model.frames) && rstack[ridx].kind == model.kind)
      && (ridx > 0 ==> reply == Some(rstack[0].obj))
    }

    /** The address of the reply that is being read; what lies below has been handed out. */
    ghost function Base(): nat
      requires rstack.Length == 9
      reads this, rstack
    {
      if ridx > 0 then rstack[0].obj else |objs|
    }

    /** A ninth array is turned away as soon as its type byte is read. */
    ghost predicate Valid()
      reads this, rstack
    {
      Consistent() && !(ridx == 8 && model.kind == Some(MultiBulk))
    }

    /** The reader after a step with result `r`, and what `processItem` returned. */
    ghost predicate Stands(r: Stepped, ok: bool)
      reads this, rstack
    {
      match r
      case Next(frames, rest) => ok && ridx >= 0 && model == Reader(frames, None, rest, None)
      case Finished(v, rest) =>
        && ok && ridx == -1 && model == Reader([], None, rest, None)
        && reply.Some? && reply.value < |objs| && Tree(objs, reply.value, |objs|) == Some(v)
      case Stuck(frames, kind, rest) => !ok && ridx >= 0 && model == Reader(frames, kind, rest, None)
      case Abort(e) => !ok && model == Reader([], None, "", Some(e))
    }

    constructor ()
      ensures Valid() && model == FRESH && fresh(rstack)
    {
      err, buf, pos, ridx, reply, objs := None, "", 0, -1, None, [];
      rstack := new Task[9](_ => Task(None, 0, 0, 0));
      model := FRESH;
    }

    /** `redisReaderFeed`. */
    method Feed(chunk: string)
      requires Valid()
      modifies this
      ensures Valid() && model == Resp.Feed(old(model), chunk)
      ensures objs == old(objs) && Base() == old(Base())
    {
      if err.None? {
        buf := buf + chunk;
        model := Resp.Feed(model, chunk);
      }
    }

    /** `__redisReaderSetError`. */
    method SetError(e: Failure)
      requires Consistent()
      modifies this`err, this`buf, this`pos, this`ridx, this`reply, this`model
      ensures Valid() && model == Reader([], None, "", Some(e)) && ridx == -1
    {
      reply := None;
      buf, pos, ridx := "", 0, -1;
      err := Some(e);
      model := Reader([], None, "", Some(e));
    }

    /** `createStringObject`, `createIntegerObject`, `createNilObject`, `createArrayObject`: a new
        object, linked into the element of the parent's array that is being read. */
    method CreateObject(o: Object) returns (obj: nat)
      requires Consistent() && ridx >= 0
      modifies this`objs
      ensures objs == Created(old(objs), rstack[..], ridx, o) && obj == |old(objs)|
      ensures Kept(old(objs), old(Base()), objs, old(Base())) && old(Base()) <= |old(objs)| < |objs|
    {
      BaseIsLow();
      obj := |objs|;
      if ridx > 0 {
        assert FrameHolds(objs, rstack[..], ridx, model.frames[ridx - 1], ridx - 1);
        var parent, idx := rstack[ridx - 1].obj, rstack[ridx].idx;
        objs := objs[parent := Block(objs[parent].slots[idx := Some(obj)])];
      }
      objs := objs + [o];
    }

    lemma BaseIsLow()
      requires Consistent()
      ensures Base() <= |objs| && forall i | 0 <= i < ridx :: Base() <= rstack[i].obj
    {
      if ridx > 0 {
        assert FrameHolds(objs, rstack[..], ridx, model.frames[0], 0);
        forall i | 0 <= i < ridx
          ensures Base() <= rstack[i].obj
        {
          ObjectsAscend(objs, rstack[..], ridx, model.frames, 0, i);
        }
      }
    }

    /** `moveToNextTask`, when the current item has become the reply `v` at address `c`. */
    method MoveToNextTask(ghost c: nat, ghost v: Reply, ghost rest: string)
      requires rstack.Length == 9 && At(objs, rstack[..], ridx, model.frames, c, v)
      modifies this`ridx, rstack
      ensures match Complete(model.frames, v, rest)
              case Finished(w, _) =>
                && ridx == -1
                && var root := if old(ridx) == 0 then c else old(rstack[..])[0].obj;
                   root < |objs| && Tree(objs, root, |objs|) == Some(w)
              case Next(inner, _) =>
                && 0 < ridx <= old(ridx) && Linked(objs, rstack[..], ridx, inner)
                && rstack[ridx].kind == None && rstack[0] == old(rstack[..])[0]
              case _ => false
    {
      ghost var tasks := rstack[..];
      ghost var frames, at, w := PopAll(objs, tasks, ridx, model.frames, c, v, rest);
      while ridx > 0 && rstack[ridx].idx == rstack[ridx - 1].elements - 1
        invariant 0 <= ridx <= old(ridx) && rstack[..] == tasks
        invariant PopTo(tasks, ridx) == PopTo(tasks, old(ridx))
        decreases ridx
      {
        ridx := ridx - 1;
      }
      if ridx == 0 {
        ridx := ridx - 1;
      } else {
        var t := Task(None, -1, rstack[ridx].idx + 1, rstack[ridx].obj);
        AdvanceStep(objs, tasks, ridx, frames, at, w, rest, t);
        rstack[ridx] := t;
        assert rstack[..] == tasks[ridx := t];
      }
    }

    /** The current item is the reply `v`, which ends at `end`: create its object and move on. */
    method Emit(o: Object, ghost v: Reply, end: nat, ghost rest: string)
      requires Consistent() && ridx >= 0 && err.None? && end <= |buf| && rest == buf[end..]
      requires o == Leaf(v) || (o == Block([]) && v == Array([]))
      modifies this, rstack
      ensures Valid() && Stands(Complete(old(model).frames, v, rest), true)
      ensures Kept(old(objs), old(Base()), objs, Base())
    {
      ghost var frames, tasks := model.frames, rstack[..];
      CreatedFills(objs, tasks, ridx, frames, o, v);
      CreatedLinks(objs, tasks, ridx, frames, o);
      var root := ridx == 0;
      var obj := CreateObject(o);
      MoveToNextTask(obj, v, rest);
      if root { reply := Some(obj); }
      pos := end;
      var result := Complete(frames, v, rest);
      model := Reader(if result.Next? then result.frames else [], None, rest, None);
    }

    /** The branch of `processMultiBulkItem` that pushes a task for the first element. */
    method OpenArray(n: nat, next: nat, ghost rest: string)
      requires Consistent() && 0 <= ridx < 8 && err.None? && model.kind == Some(MultiBulk)
      requires n > 0 && next <= |buf| && rest == buf[next..]
      modifies this, rstack
      ensures Valid() && ridx >= 0
      ensures model == Reader(old(model).frames + [Frame(n, [])], None, rest, None)
      ensures Kept(old(objs), old(Base()), objs, Base())
    {
      ghost var frames, tasks := model.frames, rstack[..];
      var root := ridx == 0;
      OpenLinks(objs, tasks, ridx, frames, n);
      var obj := CreateObject(Block(seq(n, _ => None)));
      rstack[ridx] := rstack[ridx].(elements := n, obj := obj);
      ridx := ridx + 1;
      rstack[ridx] := Task(None, -1, 0, 0);
      assert rstack[..] == tasks[ridx - 1 := tasks[ridx - 1].(elements := n, obj := obj)][ridx := Task(None, -1, 0, 0)];
      if root { reply := Some(obj); }
      pos := next;
      model := Reader(frames + [Frame(n, [])], None, rest, None);
    }

    /** What an item turned out to be is carried out: an error is recorded, a reply is created, an
        array is opened, or nothing happens. */
    method Settle(h: Head) returns (ok: bool)
      requires Consistent() && ridx >= 0 && err.None? && model.kind.Some?
      requires h == HeadOf(model.kind.value, model.unread, ridx)
      modifies this, rstack
      ensures Valid() && Stands(Step(old(model).frames, old(model).kind, old(model).unread), ok)
      ensures Kept(old(objs), old(Base()), objs, Base())
    {
      HeadSuffix(model.kind.value, model.unread, ridx);
      BaseIsLow();
      match h {
        case Bad(e) =>
          SetError(e);
          return false;
        case More =>
          return false;
        case Open(n, rest) =>
          SuffixOfBuffer(buf, pos, rest);
          OpenArray(n, |buf| - |rest|, rest);
          return true;
        case Whole(v, rest) =>
          SuffixOfBuffer(buf, pos, rest);
          Emit(if v == Array([]) then Block([]) else Leaf(v), v, |buf| - |rest|, rest);
          return true;
      }
    }

    /** `processItem`. */
    method ProcessItem() returns (ok: bool)
      requires Valid() && ridx >= 0 && err.None?
      modifies this, rstack
      ensures Valid() && Stands(Step(old(model).frames, old(model).kind, old(model).unread), ok)
      ensures Kept(old(objs), old(Base()), objs, Base())
    {
      BaseIsLow();
      if rstack[ridx].kind.None? {
        if pos == |buf| {
          return false;
        }
        var p := buf[pos];
        var kind := KindOf(p);
        if kind.None? {
          SetError(ProtocolByte(p));
          return false;
        }
        ReadKind(kind);
      }
      var h;
      match rstack[ridx].kind.value {
        case BulkString => h := ProcessBulkItem(buf[pos..], ridx);
        case MultiBulk => h := ProcessMultiBulkItem(buf[pos..], ridx);
        case kind => h := ProcessLineItem(kind, buf[pos..], ridx);
      }
      ok := Settle(h);
    }

    /** The type byte of an item is consumed. */
    method ReadKind(kind: Option<Kind>)
      requires Valid() && ridx >= 0 && pos < |buf| && kind == KindOf(buf[pos]) && kind.Some?
      modifies this`pos, this`model, rstack
      ensures Consistent() && model == old(model).(kind := kind, unread := old(model).unread[1..])
      ensures Base() == old(Base())
    {
      ghost var tasks := rstack[..];
      KindLinks(objs, tasks, ridx, model.frames, kind);
      rstack[ridx] := rstack[ridx].(kind := kind);
      assert rstack[..] == tasks[ridx := tasks[ridx].(kind := kind)];
      pos := pos + 1;
      model := model.(kind := kind, unread := buf[pos..]);
    }

    /** `redisReaderGetReply`: the reply if there is one; an error is in `err`. */
    method GetReply() returns (r: Option<nat>)
      requires Valid()
      modifies this, rstack
      ensures Valid() && model == Resp.GetReply(old(model)).reader
      ensures match Resp.GetReply(old(model)).reply
              case None => r.None?
              case Some(v) => r.Some? && r.value < |objs| && Tree(objs, r.value, |objs|) == Some(v) && Base() == |objs|
      ensures Kept(old(objs), old(Base()), objs, Base())
    {
      BaseIsLow();
      if err.Some? {
        return None;
      }
      if |buf| == 0 {
        RunEmpty(model.frames, model.kind);
        return None;
      }
      if ridx == -1 {
        rstack[0] := Task(None, -1, -1, 0);
        ridx := 0;
      }
      Loop();
      if err.Some? {
        return None;
      }
      if pos >= 1024 {
        buf := buf[pos..];
        pos := 0;
      }
      if ridx == -1 {
        r := reply;
        reply := None;
      } else {
        r := None;
      }
    }

    /** The loop that processes items. */
    method Loop()
      requires Valid() && ridx >= 0 && err.None?
      modifies this, rstack
      ensures Valid() && Stands(Run(old(model).frames, old(model).kind, old(model).unread), err.None? && ridx < 0)
      ensures Kept(old(objs), old(Base()), objs, Base())
    {
      ghost var result := Run(model.frames, model.kind, model.unread);
      BaseIsLow();
      while ridx >= 0
        invariant Valid() && err.None? && Kept(old(objs), old(Base()), objs, Base())
        invariant ridx >= 0 ==> Run(model.frames, model.kind, model.unread) == result
        invariant ridx < 0 ==> Stands(result, true) && result.Finished?
        decreases |model.unread|, ridx
      {
        RunStep(model.frames, model.kind, model.unread);
        ghost var step := Step(model.frames, model.kind, model.unread);
        var ok := ProcessItem();
        if !ok {
          assert step == result;
          return;
        }
      }
    }

    /** The replies `vs` are at the addresses `roots`, in objects that are not written any more. */
    ghost predicate Has(roots: seq<nat>, vs: seq<Reply>)
      requires rstack.Length == 9
      reads this, rstack
    {
      Roots(objs, Base(), roots, vs)
    }

    /** `redisReaderGetReply`, after which the replies got before are still there. */
    method NextReply(roots: seq<nat>, ghost vs: seq<Reply>) returns (roots': seq<nat>, more: bool)
      requires Valid() && Has(roots, vs)
      modifies this, rstack
      ensures Valid() && model == Resp.GetReply(old(model)).reader && (more <==> Resp.GetReply(old(model)).reply.Some?)
      ensures Has(roots', if more then vs + [Resp.GetReply(old(model)).reply.value] else vs)
    {
      ghost var was, base := objs, Base();
      var r := GetReply();
      RootsKept(was, base, objs, Base(), roots, vs);
      more := r.Some?;
      roots' := if more then roots + [r.value] else roots;
    }

    /** Calls `redisReaderGetReply` until it yields no reply. */
    method DrainAll(before: seq<nat>, ghost vs: seq<Reply>) returns (roots: seq<nat>)
      requires Valid() && Has(before, vs)
      modifies this, rstack
      ensures Valid() && model == Resp.Drain(old(model)).reader
      ensures Has(roots, vs + Resp.Drain(old(model)).replies)
    {
      roots := before;
      ghost var got, goal := vs, Resp.Drain(model);
      var more := true;
      while more
        invariant Valid() && Has(roots, got)
        invariant if more then Drained(got + Resp.Drain(model).replies, Resp.Drain(model).reader)
                               == Drained(vs + goal.replies, goal.reader)
                  else got == vs + goal.replies && model == goal.reader
        decreases more, |model.unread|
      {
        ghost var a := Resp.GetReply(model);
        DrainNext(model, got);
        roots, more := NextReply(roots, got);
        if more { got := got + [a.reply.value]; }
      }
    }
  }

  lemma DrainNext(r: Reader, got: seq<Reply>)
    requires Fits(r.frames)
    ensures var a, d := Resp.GetReply(r), Resp.Drain(r);
            if a.reply.None? then got + d.replies == got && d.reader == a.reader
            else got + d.replies == (got + [a.reply.value]) + Resp.Drain(a.reader).replies
                 && d.reader == Resp.Drain(a.reader).reader
  {
    var a := Resp.GetReply(r);
    if a.reply.Some? {
      ThenThen(got, [a.reply.value], Stream(Resp.Drain(a.reader).replies, Waiting));
    } else {
      assert got + [] == got;
    }
  }

  /** Feeds a new reader chunk by chunk and drains it after each: however the stream is cut, the replies are
      those of the whole stream, and all of them are there at the end. */
  method ReadStream(chunks: seq<string>) returns (reader: RedisReader, roots: seq<nat>)
    ensures reader.Valid() && reader.Has(roots, ParseAll(Concat(chunks)).replies)
    ensures ParseAll(Concat(chunks)).end == if reader.err.Some? then Broken(reader.err.value) else Waiting
  {
    reader := new RedisReader();
    roots := [];
    ghost var vs: seq<Reply> := [];
    ghost var goal := DrainChunks(FRESH, chunks);
    var rest := chunks;
    while rest != []
      invariant fresh(reader) && fresh(reader.rstack) && reader.Valid() && reader.Has(roots, vs)
      invariant vs + DrainChunks(reader.model, rest).replies == goal.replies
      invariant DrainChunks(reader.model, rest).reader == goal.reader
      decreases |rest|
    {
      ghost var first := Drain(Feed(reader.model, rest[0]));
      ThenThen(vs, first.replies, Stream(DrainChunks(first.reader, rest[1..]).replies, Waiting));
      reader.Feed(rest[0]);
      roots := reader.DrainAll(roots, vs);
      vs := vs + first.replies;
      rest := rest[1..];
    }
    ChunkIndependence(chunks);
    assert vs + [] == vs;
  }
}
