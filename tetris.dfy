/** The piece manager of Tetris Stack: a circular queue of the next pieces
    (`Fila`, five slots) and a reserve stack (`Pilha`, three slots), both
    fixed arrays updated in place, with the five player actions that move
    pieces between them. The queue's logical contents are the `count` slots
    starting at `front`, wrapping round the array. */
module Tetris {
  import opened Wrappers

  /** MAX_FILA */
  const QueueCapacity := 5
  /** MAX_PILHA */
  const StackCapacity := 3
  /** TROCA_MULTIPLA_QTY: pieces exchanged by the block swap. */
  const BlockSwapCount := 3

  /** `Peca`: the kind letter and the creation number. */
  datatype Piece = Piece(kind: char, id: int)

  /** The kinds `gerarPeca` draws from. */
  const Kinds: seq<char> := ['I', 'O', 'T', 'L', 'J', 'S', 'Z']

  /** The `n` pieces of a five-slot ring read from `front` onward. */
  function Window(ring: seq<Piece>, front: int, n: int): (w: seq<Piece>)
    requires |ring| == QueueCapacity && 0 <= front < QueueCapacity && 0 <= n <= QueueCapacity
    ensures |w| == n
    ensures forall i :: 0 <= i < n ==> w[i] == ring[(front + i) % QueueCapacity]
  {
    seq(n, i requires 0 <= i < n => ring[(front + i) % QueueCapacity])
  }

  /** Writing the slot just past the last piece appends that piece. */
  lemma WindowAppend(ring: seq<Piece>, front: int, n: int, p: Piece)
    requires |ring| == QueueCapacity && 0 <= front < QueueCapacity && 0 <= n < QueueCapacity
    ensures Window(ring[(front + n) % QueueCapacity := p], front, n + 1) == Window(ring, front, n) + [p]
  {
    var after := ring[(front + n) % QueueCapacity := p];
    forall i | 0 <= i < n
      ensures Window(after, front, n + 1)[i] == Window(ring, front, n)[i]
    {
      SlotsDistinct(front, i, n);
    }
  }

  /** Moving the front one slot on drops the first piece. */
  lemma WindowAdvance(ring: seq<Piece>, front: int, n: int)
    requires |ring| == QueueCapacity && 0 <= front < QueueCapacity && 0 < n <= QueueCapacity
    ensures Window(ring, (front + 1) % QueueCapacity, n - 1) == Window(ring, front, n)[1..]
  {
    var w := Window(ring, front, n);
    var shifted := Window(ring, (front + 1) % QueueCapacity, n - 1);
    forall i | 0 <= i < n - 1
      ensures shifted[i] == w[i + 1]
    {
      assert ((front + 1) % QueueCapacity + i) % QueueCapacity == (front + (i + 1)) % QueueCapacity;
    }
  }

  /** Writing the slot of the `i`-th piece replaces that piece only. */
  lemma WindowUpdate(ring: seq<Piece>, front: int, n: int, i: int, p: Piece)
    requires |ring| == QueueCapacity && 0 <= front < QueueCapacity && 0 <= i < n <= QueueCapacity
    ensures Window(ring[(front + i) % QueueCapacity := p], front, n) == Window(ring, front, n)[i := p]
  {
    var after := ring[(front + i) % QueueCapacity := p];
    forall k | 0 <= k < n && k != i
      ensures Window(after, front, n)[k] == Window(ring, front, n)[k]
    {
      if k < i {
        SlotsDistinct(front, k, i);
      } else {
        SlotsDistinct(front, i, k);
      }
    }
  }

  /** Moving the front on while the count drops keeps the end slot. */
  lemma AdvanceKeepsRear(front: int, n: int)
    requires 0 <= front < QueueCapacity && 0 < n <= QueueCapacity
    ensures ((front + 1) % QueueCapacity + (n - 1)) % QueueCapacity == (front + n) % QueueCapacity
  {
    if front + 1 < QueueCapacity {
      assert (front + 1) % QueueCapacity == front + 1;
    }
  }

  /** Two different positions of one lap of the ring use different slots. */
  lemma SlotsDistinct(front: int, i: int, j: int)
    requires 0 <= front < QueueCapacity && 0 <= i < j < QueueCapacity
    ensures (front + i) % QueueCapacity != (front + j) % QueueCapacity
  {
  }

  /** `Fila`: the queue of the next pieces. */
  class PieceQueue {
    /** `vetor` */
    const slots: array<Piece>
    /** `inicio`: the slot of the next piece to leave. */
    var front: int
    /** `fim`: the slot after the last piece. */
    var rear: int
    /** `qtd_elementos` */
    var count: int

    /** The bounds the queue keeps, and the end slot determined by the
        start slot and the count. */
    ghost predicate Valid()
      reads this
    {
      slots.Length == QueueCapacity &&
      0 <= count <= QueueCapacity &&
      0 <= front < QueueCapacity && 0 <= rear < QueueCapacity &&
      rear == (front + count) % QueueCapacity
    }

    /** The pieces in the order they will leave. */
    ghost function Contents(): seq<Piece>
      requires Valid()
      reads this, slots
    {
      Window(slots[..], front, count)
    }

    /** `inicializarFila`: an empty queue. */
    constructor ()
      ensures Valid() && fresh(slots)
      ensures front == 0 && rear == 0 && count == 0
      ensures Contents() == []
    {
      slots := new Piece[QueueCapacity];
      front, rear, count := 0, 0, 0;
    }

    /** `filaVazia` */
    method IsEmpty() returns (empty: bool)
      requires Valid()
      ensures empty <==> Contents() == []
    {
      empty := count == 0;
    }

    /** `filaCheia` */
    method IsFull() returns (full: bool)
      requires Valid()
      ensures full <==> |Contents()| == QueueCapacity
    {
      full := count == QueueCapacity;
    }

    /** `inserirPecaFila`: a full queue refuses the piece and stays as it
        was; otherwise the piece joins the back and the rest stays. */
    method Enqueue(p: Piece) returns (ok: bool)
      requires Valid()
      modifies this, slots
      ensures Valid()
      ensures ok <==> |old(Contents())| < QueueCapacity
      ensures ok ==> Contents() == old(Contents()) + [p]
      ensures !ok ==> unchanged(this) && unchanged(slots)
    {
      if count == QueueCapacity {
        return false;
      }
      WindowAppend(slots[..], front, count, p);
      slots[rear] := p;
      rear := (rear + 1) % QueueCapacity;
      count := count + 1;
      ok := true;
    }

    /** `removerPecaFila`: an empty queue yields nothing and stays as it
        was; otherwise the front piece leaves. */
    method Dequeue() returns (r: Option<Piece>)
      requires Valid()
      modifies this
      ensures Valid()
      ensures old(count) == 0 ==> r == None && unchanged(this)
      ensures old(count) > 0 ==> r == Some(old(Contents())[0]) && Contents() == old(Contents())[1..]
    {
      if count == 0 {
        return None;
      }
      r := Some(slots[front]);
      WindowAdvance(slots[..], front, count);
      AdvanceKeepsRear(front, count);
      front, count := (front + 1) % QueueCapacity, count - 1;
    }
  }

  /** `Pilha`: the reserve. */
  class ReserveStack {
    /** `vetor` */
    const slots: array<Piece>
    /** `topo`: the slot of the top piece, -1 when empty. */
    var top: int

    ghost predicate Valid()
      reads this
    {
      slots.Length == StackCapacity && -1 <= top <= StackCapacity - 1
    }

    /** The pieces from bottom to top. */
    ghost function Contents(): (s: seq<Piece>)
      requires Valid()
      reads this, slots
      ensures |s| == top + 1
    {
      slots[..top + 1]
    }

    /** `inicializarPilha`: an empty stack. */
    constructor ()
      ensures Valid() && fresh(slots) && top == -1
      ensures Contents() == []
    {
      slots := new Piece[StackCapacity];
      top := -1;
    }

    /** `pilhaVazia` */
    method IsEmpty() returns (empty: bool)
      requires Valid()
      ensures empty <==> top == -1
      ensures empty <==> Contents() == []
    {
      empty := top == -1;
    }

    /** `pilhaCheia` */
    method IsFull() returns (full: bool)
      requires Valid()
      ensures full <==> top == StackCapacity - 1
      ensures full <==> |Contents()| == StackCapacity
    {
      full := top == StackCapacity - 1;
    }

    /** `inserirPecaPilha`: a full stack refuses the piece and stays as it
        was; otherwise the piece goes on top and the slots below keep their
        pieces. */
    method Push(p: Piece) returns (ok: bool)
      requires Valid()
      modifies this, slots
      ensures Valid()
      ensures ok <==> old(top) < StackCapacity - 1
      ensures ok ==> top == old(top) + 1 && Contents() == old(Contents()) + [p]
      ensures !ok ==> unchanged(this) && unchanged(slots)
    {
      if top == StackCapacity - 1 {
        return false;
      }
      top := top + 1;
      slots[top] := p;
      ok := true;
    }

    /** `removerPecaPilha`: an empty stack yields nothing; otherwise the top
        piece comes off and the slots are left as they were. */
    method Pop() returns (r: Option<Piece>)
      requires Valid()
      modifies this
      ensures Valid()
      ensures old(top) == -1 ==> r == None && unchanged(this)
      ensures old(top) != -1 ==>
                r == Some(old(Contents())[old(top)]) && top == old(top) - 1 &&
                Contents() == old(Contents())[..old(top)]
    {
      if top == -1 {
        return None;
      }
      r := Some(slots[top]);
      top := top - 1;
    }
  }

  /** A push followed by a pop gives the pushed piece back and leaves the
      stack as it was. */
  method PushThenPop(s: ReserveStack, p: Piece) returns (r: Option<Piece>)
    requires s.Valid() && s.top < StackCapacity - 1
    modifies s, s.slots
    ensures s.Valid()
    ensures r == Some(p)
    ensures s.top == old(s.top) && s.Contents() == old(s.Contents())
  {
    var _ := s.Push(p);
    r := s.Pop();
  }

  /** The counter `proximo_id` behind `gerarPeca`. */
  class PieceFactory {
    var nextId: int

    constructor ()
      ensures nextId == 0
    {
      nextId := 0;
    }

    /** `gerarPeca`: the random choice of kind is the caller's `kind`; the
        piece takes the next number, so numbers are handed out in order. */
    method Generate(kind: char) returns (p: Piece)
      requires kind in Kinds
      modifies this
      ensures p == Piece(kind, old(nextId))
      ensures nextId == old(nextId) + 1
    {
      p := Piece(kind, nextId);
      nextId := nextId + 1;
    }
  }

  /** The queue and the stack never share slots. */
  ghost predicate Separate(q: PieceQueue, s: ReserveStack)
    reads q, s
  {
    q.Valid() && s.Valid() && q.slots != s.slots
  }

  /** `acaoJogarPeca`: the front piece is played and a new piece joins the
      back; on an empty queue nothing happens. */
  method PlayPiece(q: PieceQueue, f: PieceFactory, kind: char) returns (played: Option<Piece>)
    requires q.Valid() && kind in Kinds
    modifies q, q.slots, f
    ensures q.Valid()
    ensures old(q.Contents()) == [] ==> played == None && unchanged(q) && unchanged(f)
    ensures old(q.Contents()) != [] ==>
              played == Some(old(q.Contents())[0]) &&
              q.Contents() == old(q.Contents())[1..] + [Piece(kind, old(f.nextId))] &&
              f.nextId == old(f.nextId) + 1
  {
    played := q.Dequeue();
    if played.Some? {
      var piece := f.Generate(kind);
      var _ := q.Enqueue(piece);
    }
  }

  /** `acaoReservarPeca`: with room on the stack and a piece in the queue,
      the front piece goes on top of the stack and a new piece joins the
      queue; otherwise nothing happens. */
  method ReservePiece(q: PieceQueue, s: ReserveStack, f: PieceFactory, kind: char) returns (reserved: Option<Piece>)
    requires Separate(q, s) && kind in Kinds
    modifies q, q.slots, s, s.slots, f
    ensures Separate(q, s)
    ensures old(s.top) == StackCapacity - 1 || old(q.Contents()) == [] ==>
              reserved == None && unchanged(q) && unchanged(q.slots) && unchanged(s) &&
              unchanged(s.slots) && unchanged(f)
    ensures old(s.top) < StackCapacity - 1 && old(q.Contents()) != [] ==>
              reserved == Some(old(q.Contents())[0]) &&
              s.Contents() == old(s.Contents()) + [old(q.Contents())[0]] &&
              q.Contents() == old(q.Contents())[1..] + [Piece(kind, old(f.nextId))] &&
              f.nextId == old(f.nextId) + 1
  {
    var full := s.IsFull();
    if full {
      return None;
    }
    reserved := q.Dequeue();
    if reserved.Some? {
      var _ := s.Push(reserved.value);
      var piece := f.Generate(kind);
      var _ := q.Enqueue(piece);
    }
  }

  /** `acaoUsarPecaReservada`: the top of the stack is played and a new
      piece is made; it joins the queue only when the queue has room, but
      its number is used up either way. On an empty stack nothing happens. */
  method UseReserved(q: PieceQueue, s: ReserveStack, f: PieceFactory, kind: char) returns (used: Option<Piece>)
    requires Separate(q, s) && kind in Kinds
    modifies q, q.slots, s, f
    ensures Separate(q, s)
    ensures old(s.top) == -1 ==>
              used == None && unchanged(q) && unchanged(q.slots) && unchanged(s) && unchanged(f)
    ensures old(s.top) != -1 ==>
              used == Some(old(s.Contents())[old(s.top)]) &&
              s.Contents() == old(s.Contents())[..old(s.top)] &&
              f.nextId == old(f.nextId) + 1 &&
              q.Contents() == if |old(q.Contents())| < QueueCapacity
                              then old(q.Contents()) + [Piece(kind, old(f.nextId))]
                              else old(q.Contents())
  {
    used := s.Pop();
    if used.Some? {
      var piece := f.Generate(kind);
      var _ := q.Enqueue(piece);
    }
  }

  /** `acaoTrocarPecaAtual`: when both hold a piece, the front of the queue
      and the top of the stack change places; counts and all other pieces
      stay. Otherwise nothing happens. */
  method SwapCurrent(q: PieceQueue, s: ReserveStack) returns (swapped: bool)
    requires Separate(q, s)
    modifies q.slots, s.slots
    ensures Separate(q, s)
    ensures swapped <==> old(q.Contents()) != [] && old(s.top) != -1
    ensures swapped ==>
              q.Contents() == old(q.Contents())[0 := old(s.Contents())[s.top]] &&
              s.Contents() == old(s.Contents())[s.top := old(q.Contents())[0]]
    ensures !swapped ==> unchanged(q.slots) && unchanged(s.slots)
  {
    if q.count == 0 || s.top == -1 {
      return false;
    }
    ExchangeSlots(q, s, 0);
    swapped := true;
  }

  /** The exchange at the heart of both swap actions: the `i`-th piece
      from the queue front and the `i`-th piece from the stack top change
      places, in their slots; nothing else moves. */
  method ExchangeSlots(q: PieceQueue, s: ReserveStack, i: int)
    requires Separate(q, s) && 0 <= i < q.count && 0 <= s.top - i
    modifies q.slots, s.slots
    ensures Separate(q, s)
    ensures q.Contents() == old(q.Contents())[i := old(s.Contents())[s.top - i]]
    ensures s.Contents() == old(s.Contents())[s.top - i := old(q.Contents())[i]]
  {
    var queueSlot := (q.front + i) % QueueCapacity;
    var stackSlot := s.top - i;
    WindowUpdate(q.slots[..], q.front, q.count, i, s.slots[stackSlot]);
    var temp := q.slots[queueSlot];
    q.slots[queueSlot] := s.slots[stackSlot];
    s.slots[stackSlot] := temp;
  }

  /** The block swap on values: the first three queued pieces and the three
      reserved ones trade places, the i-th from the queue front with the
      i-th from the stack top. */
  function BlockSwap(queue: seq<Piece>, stack: seq<Piece>): (r: (seq<Piece>, seq<Piece>))
    requires |queue| >= BlockSwapCount && |stack| == BlockSwapCount
    ensures |r.0| == |queue| && |r.1| == BlockSwapCount
    ensures forall i :: 0 <= i < BlockSwapCount ==>
              r.0[i] == stack[BlockSwapCount - 1 - i] && r.1[BlockSwapCount - 1 - i] == queue[i]
    ensures forall i :: BlockSwapCount <= i < |queue| ==> r.0[i] == queue[i]
  {
    ([stack[2], stack[1], stack[0]] + queue[BlockSwapCount..], [queue[2], queue[1], queue[0]])
  }

  /** The block swap neither creates nor loses a piece. */
  lemma BlockSwapKeepsPieces(queue: seq<Piece>, stack: seq<Piece>)
    requires |queue| >= BlockSwapCount && |stack| == BlockSwapCount
    ensures var (q, s) := BlockSwap(queue, stack);
            multiset(q) + multiset(s) == multiset(queue) + multiset(stack)
  {
    var (q, s) := BlockSwap(queue, stack);
    var head, rest := queue[..BlockSwapCount], queue[BlockSwapCount..];
    assert queue == head + rest;
    assert q == [stack[2], stack[1], stack[0]] + rest;
    assert s == [head[2], head[1], head[0]];
    ThreeReversedSamePieces(stack);
    ThreeReversedSamePieces(head);
  }

  lemma ThreeReversedSamePieces(x: seq<Piece>)
    requires |x| == 3
    ensures multiset([x[2], x[1], x[0]]) == multiset(x)
  {
    assert x == [x[0], x[1], x[2]];
  }

  /** `acaoTrocaMultipla`: with at least three queued pieces and a full
      stack, three swaps exchange the first three queued pieces with the
      reserve, the i-th from the front with the i-th from the top; counts
      stay. Otherwise nothing happens. */
  method SwapThree(q: PieceQueue, s: ReserveStack) returns (swapped: bool)
    requires Separate(q, s)
    modifies q.slots, s.slots
    ensures Separate(q, s)
    ensures swapped <==> q.count >= BlockSwapCount && s.top >= BlockSwapCount - 1
    ensures swapped ==> (q.Contents(), s.Contents()) == BlockSwap(old(q.Contents()), old(s.Contents()))
    ensures !swapped ==> unchanged(q.slots) && unchanged(s.slots)
  {
    if q.count < BlockSwapCount || s.top < BlockSwapCount - 1 {
      return false;
    }
    ghost var queue0, stack0 := q.Contents(), s.Contents();
    var i := 0;
    while i < BlockSwapCount
      invariant 0 <= i <= BlockSwapCount
      invariant Separate(q, s) && s.top == BlockSwapCount - 1 && q.count == |queue0|
      invariant forall k :: 0 <= k < |queue0| ==>
                  q.Contents()[k] == if k < i then stack0[BlockSwapCount - 1 - k] else queue0[k]
      invariant forall k :: 0 <= k < BlockSwapCount ==>
                  s.Contents()[k] == if BlockSwapCount - 1 - k < i then queue0[BlockSwapCount - 1 - k] else stack0[k]
    {
      ExchangeSlots(q, s, i);
      i := i + 1;
    }
    ghost var swappedPair := BlockSwap(queue0, stack0);
    assert q.Contents() == swappedPair.0;
    assert s.Contents() == swappedPair.1;
    swapped := true;
  }
}
