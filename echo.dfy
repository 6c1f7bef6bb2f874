/**
  Echo mode: one generator shared, under a lock, by the transmit loop and the
  receive loop of a single device whose bytes come back unchanged. The lock
  makes every `generate` and `validate` call atomic, so any run of the two
  loops is a sequence of the steps below, taken in some interleaving.
 */
module Echo {
  import opened Backlog
  import opened PatternGenerator

  /** The receive loop reads into a buffer of this many bytes. */
  const ReadBufferSize: nat := 2048

  datatype Step =
    | Produce           // transmit loop: `generate` a chunk, under the lock
    | Transmit(k: nat)  // transmit loop: `write_all` moves up to k more bytes of that chunk onto the link
    | Receive(n: nat)   // receive loop: `read` returns up to n waiting bytes, then `validate`s them under the lock

  /** The generator's backlog, the loopback link and the two loops' counters. */
  datatype Loop = Loop(
    backlog: seq<byte>,  // the generator's queue
    link: seq<byte>,     // written by the transmit loop, not yet read back
    held: seq<byte>,     // generated, not yet written
    generated: nat,
    validated: nat,
    mismatches: nat)

  function Min(a: nat, b: nat): (m: nat)
    ensures m <= a && m <= b && (m == a || m == b)
  {
    if a <= b then a else b
  }

  /** One step of either loop. */
  function Next(s: Loop, step: Step): Loop {
    match step
    case Produce =>
      // the transmit loop generates again only once the last chunk is written
      if s.held == [] then
        s.(backlog := s.backlog + Chunk(), held := Chunk(), generated := s.generated + ChunkSize)
      else s
    case Transmit(k) =>
      var count := Min(k, |s.held|);
      s.(link := s.link + s.held[..count], held := s.held[count..])
    case Receive(n) =>
      var count := Min(Min(n, ReadBufferSize), |s.link|);
      var d := Validated(s.backlog, s.link[..count]);
      s.(backlog := d.rest, link := s.link[count..], validated := s.validated + count,
         mismatches := if d.outcome == Pass then s.mismatches else s.mismatches + 1)
  }

  /** The state after the steps of `schedule`, from a fresh generator and an empty link. */
  function Run(schedule: seq<Step>): Loop
    decreases |schedule|
  {
    if schedule == [] then Loop([], [], [], 0, 0, 0)
    else Next(Run(schedule[..|schedule| - 1]), schedule[|schedule| - 1])
  }

  /**
    The backlog is exactly the bytes on the link followed by the unwritten
    rest of the current chunk; it holds the bytes generated and not yet
    validated, and no validation has failed.
   */
  ghost predicate Coherent(s: Loop) {
    && s.backlog == s.link + s.held
    && AllZero(s.backlog)
    && s.generated == s.validated + |s.backlog|
    && s.generated % ChunkSize == 0
    && s.mismatches == 0
  }

  /** Generating a chunk, once the last one is written, keeps the link and the backlog in step. */
  lemma ProduceKeepsCoherent(s: Loop)
    requires Coherent(s)
    ensures Coherent(Next(s, Produce))
  {
    if s.held == [] {
      var t := Next(s, Produce);
      assert t.backlog == s.link + Chunk();
      assert t.generated == s.generated + ChunkSize;
    }
  }

  /** Writing part of the chunk moves bytes from `held` to the link, in order. */
  lemma TransmitKeepsCoherent(s: Loop, k: nat)
    requires Coherent(s)
    ensures Coherent(Next(s, Transmit(k)))
  {
    var count := Min(k, |s.held|);
    var t := Next(s, Transmit(k));
    assert s.held == s.held[..count] + s.held[count..];
    assert t.link + t.held == s.link + (s.held[..count] + s.held[count..]);
  }

  /** Reading back the oldest bytes of the link validates them against the head of the backlog. */
  lemma ReceiveKeepsCoherent(s: Loop, n: nat)
    requires Coherent(s)
    ensures Coherent(Next(s, Receive(n)))
  {
    var count := Min(Min(n, ReadBufferSize), |s.link|);
    var read := s.link[..count];
    var d := Validated(s.backlog, read);
    assert s.backlog[..count] == read;
    assert IsHead(read, s.backlog);
    assert d.rest == s.backlog[count..];
    assert s.backlog[count..] == s.link[count..] + s.held;
  }

  /** Every step of either loop keeps the link and the backlog in step. */
  lemma StepKeepsCoherent(s: Loop, step: Step)
    requires Coherent(s)
    ensures Coherent(Next(s, step))
  {
    match step
    case Produce => ProduceKeepsCoherent(s);
    case Transmit(k) => TransmitKeepsCoherent(s, k);
    case Receive(n) => ReceiveKeepsCoherent(s, n);
  }

  /** Under every interleaving of the two loops, no validation ever fails. */
  lemma {:induction false} RunCoherent(schedule: seq<Step>)
    ensures Coherent(Run(schedule))
    decreases |schedule|
  {
    if schedule != [] {
      RunCoherent(schedule[..|schedule| - 1]);
      StepKeepsCoherent(Run(schedule[..|schedule| - 1]), schedule[|schedule| - 1]);
    }
  }

  /**
    Runs the two loops of echo mode over a perfect loopback in the order that
    `schedule` gives, on a real generator. The result is the state `Run`
    describes: the backlog is exactly the bytes on the link followed by the
    part of the current chunk not yet written, so no validation ever fails,
    and the backlog holds exactly the bytes generated and not yet validated.
   */
  method Loopback(schedule: seq<Step>)
    returns (mismatches: nat, generated: nat, validated: nat,
             backlog: seq<byte>, link: seq<byte>, held: seq<byte>)
    ensures Loop(backlog, link, held, generated, validated, mismatches) == Run(schedule)
    ensures mismatches == 0
    ensures backlog == link + held
    ensures AllZero(backlog)
    ensures generated == validated + |backlog|
    ensures generated % ChunkSize == 0
  {
    var g := new Generator.Create();
    link := [];
    held := [];
    mismatches, generated, validated := 0, 0, 0;
    var i := 0;
    while i < |schedule|
      invariant 0 <= i <= |schedule|
      invariant g.Valid()
      invariant Loop(g.queue, link, held, generated, validated, mismatches) == Run(schedule[..i])
    {
      assert schedule[..i + 1][..i] == schedule[..i];
      match schedule[i] {
        case Produce =>
          if held == [] {
            held := g.Generate();
            generated := generated + |held|;
          }
        case Transmit(k) =>
          var count := Min(k, |held|);
          link := link + held[..count];
          held := held[count..];
        case Receive(n) =>
          var count := Min(Min(n, ReadBufferSize), |link|);
          var buf := link[..count];
          link := link[count..];
          var r := g.Validate(buf);
          if r != Pass {
            mismatches := mismatches + 1;
          }
          validated := validated + count;
      }
      i := i + 1;
    }
    assert schedule[..i] == schedule;
    backlog := g.queue;
    RunCoherent(schedule);
  }
}
