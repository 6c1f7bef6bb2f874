/**
  The byte-pattern oracle: a FIFO backlog of the bytes handed out for
  transmission and not yet confirmed. `Generate` appends a chunk of the pattern
  to the tail; `Validate` drains as many bytes from the head as it is given and
  compares them with what was received.
 */
module PatternGenerator {
  import opened Backlog

  class Generator {
    /** The backlog, oldest byte first. */
    var queue: seq<byte>

    /** Every byte the generator ever holds is a byte of the all-zero pattern. */
    ghost predicate Valid()
      reads this
    {
      AllZero(queue)
    }

    constructor Create()
      ensures Valid()
      ensures queue == []
    {
      queue := [];
    }

    method Generate() returns (data: seq<byte>)
      requires Valid()
      modifies this
      ensures Valid()
      ensures |data| == ChunkSize && AllZero(data)
      ensures queue == old(queue) + data
    {
      data := Chunk();
      queue := queue + data;
    }

    method Validate(data: seq<byte>) returns (r: Outcome)
      requires Valid()
      modifies this
      ensures Valid()
      ensures Drained(r, queue) == Validated(old(queue), data)
      ensures r == Pass <==> IsHead(data, old(queue))
      ensures r == Fail(DrainOutOfRange) <==> |data| > |old(queue)|
      ensures r == Pass <==> |data| <= |old(queue)| && AllZero(data)
      ensures |data| <= |old(queue)| ==> queue == old(queue)[|data|..]
      ensures |data| > |old(queue)| ==> queue == old(queue)
    {
      ZeroPattern(queue, data);
      if |data| > |queue| {
        // the drain range reaches past the end: `drain` panics and removes nothing
        return Fail(DrainOutOfRange);
      }
      var reference := queue[..|data|];
      queue := queue[|data|..];
      r := if reference == data then Pass else Fail(ValueMismatch);
    }
  }

  /** A fresh generator accepts back the chunk it just produced and is then empty. */
  method GenerateThenValidate() returns (r: Outcome, remaining: nat)
    ensures r == Pass
    ensures remaining == 0
  {
    var g := new Generator.Create();
    var data := g.Generate();
    r := g.Validate(data);
    remaining := |g.queue|;
  }
}
