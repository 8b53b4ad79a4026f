/**
 The response writer of internal/mux/response.go over a connection, restricted to final status codes.
 What the handlers report (logs, metrics) is Status(); what the client got is the committed status.
 */
module Response {
  import opened Prelude

  type Bytes = seq<bv8>

  const OK_STATUS: nat := 200

  /** The status field uses 0 for "not set", so codes are the final ones of HTTP. */
  predicate Final(code: nat)
  {
    200 <= code < 1000
  }

  /** The wrapper's fields and, in committed and body, what went to the client. */
  datatype View = View(error: Option<string>, status: nat, size: nat, writtenHeader: bool, committed: Option<nat>,
      body: Bytes)

  const NEW := View(None, 0, 0, false, None, [])

  /** accepted is how much of the bytes the connection took before failing. */
  datatype Op =
    | Header(code: nat)
    | Body(bytes: Bytes, accepted: nat)
    | Error(code: nat, message: string)
    | Flush
    | Copy(bytes: Bytes)

  predicate ValidOp(op: Op)
  {
    match op
    case Header(code) => Final(code)
    case Error(code, _) => Final(code)
    case Body(bytes, accepted) => accepted <= |bytes|
    case _ => true
  }

  function Commit(v: View, code: nat): View
  {
    if v.committed.Some? then v else v.(committed := Some(code))
  }

  function SetHeader(v: View, code: nat): View
  {
    Commit(if v.writtenHeader then v else v.(writtenHeader := true, status := code), code)
  }

  function Apply(v: View, op: Op): View
    requires ValidOp(op)
  {
    match op
    case Header(code) => SetHeader(v, code)
    case Body(bytes, accepted) =>
      Commit(v.(writtenHeader := true, size := v.size + accepted, body := v.body + bytes[..accepted]), OK_STATUS)
    case Error(code, message) => SetHeader(v.(error := Some(message)), code)
    case Flush => Commit(v.(writtenHeader := true), OK_STATUS)
    case Copy(bytes) =>
      if bytes == [] then v else Commit(v.(size := v.size + |bytes|, body := v.body + bytes), OK_STATUS)
  }

  function Status(v: View): nat
  {
    if v.status == 0 then OK_STATUS else v.status
  }

  /** The status line the client sees once the handler has returned. */
  function Delivered(v: View): nat
  {
    if v.committed.Some? then v.committed.value else OK_STATUS
  }

  /** net/http's writer: the first status wins, a body commits 200. */
  class Connection {
    var committed: Option<nat>
    var body: Bytes

    constructor ()
      ensures committed == None && body == []
    {
      committed, body := None, [];
    }

    method WriteHeader(code: nat)
      modifies this
      ensures committed == (if old(committed).Some? then old(committed) else Some(code)) && body == old(body)
    {
      if committed.None? {
        committed := Some(code);
      }
    }

    method Write(bytes: Bytes, accepted: nat) returns (n: nat)
      requires accepted <= |bytes|
      modifies this
      ensures committed == (if old(committed).Some? then old(committed) else Some(OK_STATUS))
      ensures body == old(body) + bytes[..accepted] && n == accepted
    {
      WriteHeader(OK_STATUS);
      body := body + bytes[..accepted];
      n := accepted;
    }
  }

  class Writer {
    const wire: Connection
    var error: Option<string>
    var status: nat
    var size: nat
    var writtenHeader: bool

    constructor (wire: Connection)
      ensures this.wire == wire
      ensures GetView() == NEW.(committed := wire.committed, body := wire.body)
    {
      this.wire := wire;
      error, status, size, writtenHeader := None, 0, 0, false;
    }

    ghost function GetView(): View
      reads this, wire
    {
      View(error, status, size, writtenHeader, wire.committed, wire.body)
    }

    method WriteHeader(code: nat)
      requires Final(code)
      modifies this, wire
      ensures GetView() == Apply(old(GetView()), Header(code))
    {
      if !writtenHeader {
        writtenHeader := true;
        status := code;
      }
      wire.WriteHeader(code);
    }

    method Write(bytes: Bytes, accepted: nat) returns (n: nat)
      requires accepted <= |bytes|
      modifies this, wire
      ensures GetView() == Apply(old(GetView()), Body(bytes, accepted)) && n == accepted
    {
      writtenHeader := true;
      n := wire.Write(bytes, accepted);
      size := size + n;
    }

    method WriteError(code: nat, message: string)
      requires Final(code)
      modifies this, wire
      ensures GetView() == Apply(old(GetView()), Error(code, message))
    {
      error := Some(message);
      WriteHeader(code);
    }

    method Flush()
      modifies this, wire
      ensures GetView() == Apply(old(GetView()), Op.Flush)
    {
      writtenHeader := true;
      wire.WriteHeader(OK_STATUS);
    }

    /** io.Copy into the connection, bypassing Write; a reader without bytes writes nothing. */
    method ReadFrom(bytes: Bytes) returns (n: nat)
      modifies this, wire
      ensures GetView() == Apply(old(GetView()), Copy(bytes)) && n == |bytes|
    {
      n := 0;
      if bytes != [] {
        assert bytes[..|bytes|] == bytes;
        n := wire.Write(bytes, |bytes|);
      }
      size := size + n;
    }

    method GetStatus() returns (code: nat)
      ensures code == Status(GetView())
    {
      code := if status == 0 then OK_STATUS else status;
    }
  }

  /* ---------- Any sequence of calls ---------- */

  function ApplyAll(v: View, ops: seq<Op>): View
    requires forall op :: op in ops ==> ValidOp(op)
  {
    if ops == [] then v else Apply(ApplyAll(v, ops[..|ops| - 1]), ops[|ops| - 1])
  }

  /** Calls that mark the header as written in the wrapper. */
  predicate Marks(op: Op)
  {
    !op.Copy?
  }

  /** Calls that put a status line on the wire if there is none yet. */
  predicate Commits(op: Op)
  {
    op.Copy? ==> op.bytes != []
  }

  function FirstMark(ops: seq<Op>): (k: nat)
    ensures k <= |ops| && (k < |ops| ==> Marks(ops[k])) && forall i :: 0 <= i < k ==> !Marks(ops[i])
  {
    if ops == [] || Marks(ops[0]) then 0 else 1 + FirstMark(ops[1..])
  }

  function FirstCommit(ops: seq<Op>): (k: nat)
    ensures k <= |ops| && (k < |ops| ==> Commits(ops[k])) && forall i :: 0 <= i < k ==> !Commits(ops[i])
  {
    if ops == [] || Commits(ops[0]) then 0 else 1 + FirstCommit(ops[1..])
  }

  function CodeOf(op: Op): nat
  {
    match op
    case Header(code) => code
    case Error(code, _) => code
    case _ => OK_STATUS
  }

  /** The wrapper's fields, given the codes of the first marking and the first committing call so far. */
  ghost predicate Summarizes(v: View, marked: Option<nat>, committed: Option<nat>)
  {
    && v.writtenHeader == marked.Some?
    && (marked.None? ==> v.status == 0)
    && Status(v) == (if marked.Some? then marked.value else OK_STATUS)
    && v.committed == committed
    && v.size == |v.body|
  }

  lemma ApplySummarizes(v: View, op: Op, marked: Option<nat>, committed: Option<nat>)
    requires ValidOp(op) && Summarizes(v, marked, committed)
    ensures Summarizes(Apply(v, op),
                       if marked.Some? || !Marks(op) then marked else Some(CodeOf(op)),
                       if committed.Some? || !Commits(op) then committed else Some(CodeOf(op)))
  {
  }

  function CodeAt(ops: seq<Op>, k: nat): Option<nat>
  {
    if k < |ops| then Some(CodeOf(ops[k])) else None
  }

  lemma {:induction false} StateAfter(ops: seq<Op>)
    requires forall op :: op in ops ==> ValidOp(op)
    ensures FirstCommit(ops) <= FirstMark(ops)
    ensures Summarizes(ApplyAll(NEW, ops), CodeAt(ops, FirstMark(ops)), CodeAt(ops, FirstCommit(ops)))
  {
    if ops != [] {
      var initial, op := ops[..|ops| - 1], ops[|ops| - 1];
      StateAfter(initial);
      FirstIsStable(ops);
      ApplySummarizes(ApplyAll(NEW, initial), op, CodeAt(initial, FirstMark(initial)),
          CodeAt(initial, FirstCommit(initial)));
    }
  }

  lemma FirstIsStable(ops: seq<Op>)
    requires ops != []
    ensures var initial, op := ops[..|ops| - 1], ops[|ops| - 1];
            && FirstMark(ops) == (if FirstMark(initial) < |initial| || Marks(op) then FirstMark(initial) else |ops|)
            && FirstCommit(ops) ==
               (if FirstCommit(initial) < |initial| || Commits(op) then FirstCommit(initial) else |ops|)
  {
    var initial := ops[..|ops| - 1];
    assert forall i :: 0 <= i < |initial| ==> initial[i] == ops[i];
  }

  /** The bytes that a call puts on the wire. */
  function BytesOf(op: Op): Bytes
    requires ValidOp(op)
  {
    match op
    case Body(bytes, accepted) => bytes[..accepted]
    case Copy(bytes) => bytes
    case _ => []
  }

  function AllBytes(ops: seq<Op>): Bytes
    requires forall op :: op in ops ==> ValidOp(op)
  {
    if ops == [] then [] else AllBytes(ops[..|ops| - 1]) + BytesOf(ops[|ops| - 1])
  }

  /** The message of the last call that reported an error. */
  function LastError(ops: seq<Op>): Option<string>
  {
    if ops == [] then None
    else if ops[|ops| - 1].Error? then Some(ops[|ops| - 1].message) else LastError(ops[..|ops| - 1])
  }

  lemma ApplyBodyAndError(v: View, op: Op)
    requires ValidOp(op)
    ensures Apply(v, op).body == v.body + BytesOf(op)
    ensures Apply(v, op).error == if op.Error? then Some(op.message) else v.error
  {
    assert v.body + [] == v.body;
  }

  /** The client has the bytes of all calls in order, and the error kept is the last one reported. */
  lemma {:induction false} BodyAndError(ops: seq<Op>)
    requires forall op :: op in ops ==> ValidOp(op)
    ensures var v := ApplyAll(NEW, ops); v.body == AllBytes(ops) && v.error == LastError(ops)
  {
    if ops != [] {
      BodyAndError(ops[..|ops| - 1]);
      ApplyBodyAndError(ApplyAll(NEW, ops[..|ops| - 1]), ops[|ops| - 1]);
    }
  }

  /**
   Status() is the status the client got, for every sequence of calls, unless bytes were copied past the
   wrapper first and the first marking call after them carries a code other than 200; Size() is always
   the number of bytes the client got.
   */
  lemma StatusAgrees(ops: seq<Op>)
    requires forall op :: op in ops ==> ValidOp(op)
    ensures var v, m := ApplyAll(NEW, ops), FirstMark(ops);
            && (Status(v) == Delivered(v) <==> !(FirstCommit(ops) < m < |ops| && CodeOf(ops[m]) != OK_STATUS))
            && v.size == |v.body|
  {
    StateAfter(ops);
  }

  /** The failing family is inhabited: copy, then an error. */
  lemma StatusDisagrees()
    ensures var v := ApplyAll(NEW, [Copy([1]), Error(500, "late")]);
            Status(v) == 500 && Delivered(v) == 200
  {
    var ops := [Copy([1]), Error(500, "late")];
    assert ops[..1] == [Copy([1])] && ops[..1][..0] == [];
  }
}
