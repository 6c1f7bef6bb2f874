/**
  The generator's reference pattern and its backlog of bytes that were handed
  out for transmission but are not yet confirmed, as values: what one call of
  `generate` or `validate` does to the backlog, and what a run of receive-side
  reads does to it.
 */
module Backlog {

  type byte = bv8

  /** Every chunk the generator hands out is this many bytes long. */
  const ChunkSize: nat := 100

  predicate AllZero(s: seq<byte>) {
    forall i :: 0 <= i < |s| ==> s[i] == 0
  }

  /** The pattern: one chunk of the reference stream. */
  function Chunk(): (c: seq<byte>)
    ensures |c| == ChunkSize
    ensures AllZero(c)
  {
    seq(ChunkSize, _ => 0)
  }

  /** Why a validation did not pass. */
  datatype Fault =
    | ValueMismatch    // the drained bytes differ from the received ones
    | DrainOutOfRange  // more bytes arrived than are backlogged; `drain` panics

  datatype Outcome = Pass | Fail(fault: Fault)

  /** The verdict of a validation together with the backlog left behind. */
  datatype Drained = Drained(outcome: Outcome, rest: seq<byte>)

  /** `data` agrees, position by position, with the oldest bytes of `backlog`. */
  predicate IsHead(data: seq<byte>, backlog: seq<byte>) {
    |data| <= |backlog| && forall i :: 0 <= i < |data| ==> data[i] == backlog[i]
  }

  /**
    One validation: take `|data|` bytes off the head of the backlog and compare
    them with `data`. A range past the end of the backlog makes `drain` panic
    before it removes anything.
   */
  function Validated(backlog: seq<byte>, data: seq<byte>): (d: Drained)
    ensures d.outcome == Pass <==> IsHead(data, backlog)
    ensures d.outcome == Fail(DrainOutOfRange) <==> |data| > |backlog|
    ensures |data| <= |backlog| ==> backlog == backlog[..|data|] + d.rest
    ensures |data| > |backlog| ==> d.rest == backlog
  {
    if |data| > |backlog| then
      Drained(Fail(DrainOutOfRange), backlog)
    else
      var reference := backlog[..|data|];
      Drained(if reference == data then Pass else Fail(ValueMismatch), backlog[|data|..])
  }

  /** The bytes of consecutive reads, in order. */
  function Concat(parts: seq<seq<byte>>): (s: seq<byte>)
  {
    if parts == [] then [] else parts[0] + Concat(parts[1..])
  }

  /** Validating `x + y` at once is validating `x` and then `y` against what `x` left. */
  lemma ValidateAppend(backlog: seq<byte>, x: seq<byte>, y: seq<byte>)
    ensures var first := Validated(backlog, x);
            Validated(backlog, x + y).outcome == Pass
            <==> first.outcome == Pass && Validated(first.rest, y).outcome == Pass
    ensures var first := Validated(backlog, x);
            Validated(backlog, x + y).outcome == Pass
            ==> Validated(backlog, x + y).rest == Validated(first.rest, y).rest
  {
    var first := Validated(backlog, x);
    if IsHead(x + y, backlog) {
      assert IsHead(x, backlog) by {
        forall i | 0 <= i < |x| ensures x[i] == backlog[i] {
          assert (x + y)[i] == x[i];
        }
      }
      assert first.rest == backlog[|x|..];
      forall i | 0 <= i < |y| ensures y[i] == first.rest[i] {
        assert (x + y)[|x| + i] == y[i];
      }
      assert backlog[|x|..][|y|..] == backlog[|x + y|..];
    }
  }

  /**
    The receive loop's effect on the backlog: every read is validated in turn,
    and the first failure ends the loop (its `unwrap` panics). The run passes
    exactly when everything read is the head of the backlog, and then leaves
    the backlog without it.
   */
  function ValidateReads(backlog: seq<byte>, parts: seq<seq<byte>>): (d: Drained)
    ensures d.outcome == Pass <==> IsHead(Concat(parts), backlog)
    ensures d.outcome == Pass ==> d.rest == backlog[|Concat(parts)|..]
  {
    if parts == [] then
      Drained(Pass, backlog)
    else
      var first := Validated(backlog, parts[0]);
      ValidateAppend(backlog, parts[0], Concat(parts[1..]));
      if first.outcome.Fail? then first else ValidateReads(first.rest, parts[1..])
  }

  /**
    Validating a stream in several consecutive reads of any lengths passes
    exactly when validating it whole would, and then leaves the same backlog.
   */
  lemma {:induction false} SplitReads(backlog: seq<byte>, parts: seq<seq<byte>>)
    ensures ValidateReads(backlog, parts).outcome == Pass
            <==> Validated(backlog, Concat(parts)).outcome == Pass
    ensures ValidateReads(backlog, parts).outcome == Pass
            ==> ValidateReads(backlog, parts).rest == Validated(backlog, Concat(parts)).rest
  {
    if parts == [] {
      assert Concat(parts) == [];
    } else {
      var first := Validated(backlog, parts[0]);
      ValidateAppend(backlog, parts[0], Concat(parts[1..]));
      if first.outcome == Pass {
        SplitReads(first.rest, parts[1..]);
      }
    }
  }

  /**
    Everything sent, read back in any split and in order, validates and
    empties the backlog.
   */
  lemma RoundTrip(sent: seq<byte>, parts: seq<seq<byte>>)
    requires Concat(parts) == sent
    ensures ValidateReads(sent, parts) == Drained(Pass, [])
  {
    SplitReads(sent, parts);
  }

  /** Changing any one byte of a correct read makes the validation fail. */
  lemma FlippedByteFails(backlog: seq<byte>, data: seq<byte>, i: nat, b: byte)
    requires IsHead(data, backlog)
    requires i < |data| && b != data[i]
    ensures Validated(backlog, data[i := b]).outcome == Fail(ValueMismatch)
  {
  }

  /**
    Against a backlog of the all-zero pattern, a read validates exactly when it
    is all zero and no longer than the backlog.
   */
  lemma ZeroPattern(backlog: seq<byte>, data: seq<byte>)
    requires AllZero(backlog)
    ensures Validated(backlog, data).outcome == Pass <==> |data| <= |backlog| && AllZero(data)
  {
  }

  /**
    Bytes appended to the tail do not change a validation that only reaches
    bytes already there: a `generate` and an earlier `validate` commute.
   */
  lemma GenerateCommutes(backlog: seq<byte>, data: seq<byte>)
    requires |data| <= |backlog|
    ensures Validated(backlog + Chunk(), data)
            == Drained(Validated(backlog, data).outcome, Validated(backlog, data).rest + Chunk())
  {
    assert (backlog + Chunk())[..|data|] == backlog[..|data|];
    assert (backlog + Chunk())[|data|..] == backlog[|data|..] + Chunk();
  }
}
