/** Hnd: a Win32 HANDLE owned by one object, closed when replaced, closed
    explicitly, or destroyed. CloseHandle is recorded in a ghost log. */
module Hnd {
  import opened StdLib

  /** INVALID_HANDLE_VALUE, that is (HANDLE)-1. */
  const INVALID: int := -1

  /** What can be done to a Hnd: assigning a HANDLE, Close, the destructor. */
  datatype Op = Assign(other: int) | Close | Destroy

  /** One operation on a Hnd holding `h`: the handle it holds afterwards
      and the handles passed to CloseHandle. */
  function Step(h: int, op: Op): (r: (int, seq<int>))
    ensures r.1 == [] || r.1 == [h]
    ensures r.1 == [h] <==> h != INVALID && (op.Assign? ==> op.other != h)
    ensures op.Assign? ==> r.0 == op.other
    ensures !op.Assign? ==> r.0 == INVALID
  {
    match op
    case Assign(other) => (other, if other != h && h != INVALID then [h] else [])
    case Close => (INVALID, if h != INVALID then [h] else [])
    case Destroy => (INVALID, if h != INVALID then [h] else [])
  }

  /** The handle a Hnd holding `h` owns: `h` when valid. */
  function Held(h: int): (r: seq<int>)
    ensures |r| <= 1
  {
    if h != INVALID then [h] else []
  }

  /** The handle `op` hands over to a Hnd holding `h`, if any: a valid one
      assigned over a different one. */
  function Got(h: int, op: Op): seq<int>
  {
    if op.Assign? && op.other != h && op.other != INVALID then [op.other] else []
  }

  /** The handles a Hnd holding `h` comes to own under `ops`, after `h`. */
  function Taken(h: int, ops: seq<Op>): seq<int>
    decreases |ops|
  {
    if ops == [] then [] else Got(h, ops[0]) + Taken(Step(h, ops[0]).0, ops[1..])
  }

  /** The handle held after `ops` and every CloseHandle made, in order. */
  function Run(h: int, ops: seq<Op>): (r: (int, seq<int>))
    decreases |ops|
  {
    if ops == [] then (h, [])
    else
      var (h', c) := Step(h, ops[0]);
      var (h'', cs) := Run(h', ops[1..]);
      (h'', c + cs)
  }

  /** One operation closes what it takes the Hnd off, and the Hnd then
      holds what it got. */
  lemma StepOwned(h: int, op: Op)
    ensures Step(h, op).1 + Held(Step(h, op).0) == Held(h) + Got(h, op)
  {
  }

  /** Each handle the Hnd comes to own is closed at most once and in the
      order owned: the closes are a prefix of the owned handles, and only
      the one still held is not closed. */
  lemma {:induction false} RunClosesOwned(h: int, ops: seq<Op>)
    ensures Run(h, ops).1 + Held(Run(h, ops).0) == Held(h) + Taken(h, ops)
    decreases |ops|
  {
    if ops == [] {
      EmptyAppend(Held(h));
      AppendEmpty(Held(h));
    } else {
      var (h1, c) := Step(h, ops[0]);
      var rest := ops[1..];
      RunClosesOwned(h1, rest);
      StepOwned(h, ops[0]);
      var (h2, cs) := Run(h1, rest);
      AppendAssoc(c, cs, Held(h2));
      AppendAssoc(c, Held(h1), Taken(h1, rest));
      AppendAssoc(Held(h), Got(h, ops[0]), Taken(h1, rest));
    }
  }

  /** Close is idempotent: the second call closes nothing. */
  lemma CloseTwice(h: int)
    ensures Run(h, [Close, Close]) == (INVALID, if h != INVALID then [h] else [])
  {
    assert [Close, Close][1..] == [Close];
    assert [Close][1..] == [];
    var c := if h != INVALID then [h] else [];
    assert Run(INVALID, []) == (INVALID, []);
    EmptyAppend<int>([]);
    assert Run(INVALID, [Close]) == (INVALID, []);
    AppendEmpty(c);
  }

  class Hnd {
    var handle: int
    /** Every CloseHandle this object made, in order. */
    ghost var closed: seq<int>
    /** Every handle this object owned, in order. */
    ghost var owned: seq<int>

    /** Every handle owned has been closed, in the order owned, except the
        one still held. */
    ghost predicate Valid()
      reads this
    {
      closed + Held(handle) == owned
    }

    constructor (h: int)
      ensures Valid() && handle == h && closed == []
    {
      handle := h;
      closed := [];
      owned := Held(h);
    }

    /** The default constructor holds no handle. */
    constructor Default()
      ensures Valid() && !IsValid() && closed == [] && owned == []
    {
      handle := INVALID;
      closed := [];
      owned := [];
    }

    /** The object holds a handle: one it owns and has not yet closed. */
    predicate IsValid()
      reads this
      ensures Valid() ==> (IsValid() <==> |closed| < |owned|)
    {
      handle != INVALID
    }

    method Close()
      requires Valid()
      modifies this
      ensures Valid() && owned == old(owned)
      ensures (handle, closed) == (Step(old(handle), Op.Close).0, old(closed) + Step(old(handle), Op.Close).1)
    {
      if IsValid() {
        closed := closed + [handle];
        handle := INVALID;
      } else {
        AppendEmpty(closed);
      }
    }

    /** operator=(HANDLE): closes the current handle unless it is the one
        assigned. */
    method Assign(other: int)
      requires Valid()
      modifies this
      ensures Valid()
      ensures (handle, closed) == (Step(old(handle), Op.Assign(other)).0, old(closed) + Step(old(handle), Op.Assign(other)).1)
      ensures owned == old(owned) + Got(old(handle), Op.Assign(other))
    {
      if other != handle {
        Close();
        if other != INVALID {
          owned := owned + [other];
        }
      } else {
        AppendEmpty(closed);
      }
      handle := other;
    }

    /** ~Hnd. */
    method Destroy()
      requires Valid()
      modifies this
      ensures Valid() && owned == old(owned) && !IsValid()
      ensures (handle, closed) == (Step(old(handle), Op.Destroy).0, old(closed) + Step(old(handle), Op.Destroy).1)
    {
      Close();
    }
  }
}
