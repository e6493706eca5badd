/** Values that travel over the AXI4 channels of the memory models. */
module Axi {
  import opened Arith

  type Byte = b: int | 0 <= b < 256

  datatype Option<+T> = None | Some(value: T)

  /** One beat of the R channel (`mm_rresp_t`). */
  datatype RBeat = RBeat(id: nat, data: seq<Byte>, last: bool)

  /** An accepted read burst (`mm_req_t`): `size` is bytes per beat, `len` the number of beats. */
  datatype Req = Req(id: nat, size: nat, len: nat, addr: nat)

  /** One beat of the W channel. */
  datatype WBeat = WBeat(data: seq<Byte>, strb: nat)

  /** The fields of an AR or AW transfer as they appear on the wires. */
  datatype Address = Address(addr: nat, id: nat, size: nat, len: nat)

  /** The arguments of one `tick`. */
  datatype Inputs = Inputs(
    reset: bool,
    arValid: bool, ar: Address,
    awValid: bool, aw: Address,
    wValid: bool, w: WBeat, wLast: bool,
    rReady: bool, bReady: bool)

  /** The request that an accepted AR transfer stands for. */
  function ToReq(a: Address): Req {
    Req(a.id, Pow2(a.size), a.len + 1, a.addr)
  }

  /** AxLEN is eight bits wide and a beat is no wider than the data bus
      (sections A3.4.1 and A3.4.3 of ARM IHI 0022E); addresses are 64 bits. */
  predicate LegalAddress(a: Address, word: nat) {
    a.addr < WORD_RANGE && a.len < 256 && Pow2(a.size) <= word
  }

  predicate LegalInputs(i: Inputs, word: nat) {
    && (i.arValid ==> LegalAddress(i.ar, word))
    && (i.awValid ==> LegalAddress(i.aw, word))
    && (i.wValid ==> |i.w.data| == word)
  }

  /** Pop the front of a response queue when the handshake completes. */
  function Popped<T>(queue: seq<T>, fire: bool): seq<T> {
    if fire && queue != [] then queue[1..] else queue
  }

  /** What the handshake delivers. */
  function Delivered<T>(queue: seq<T>, fire: bool): seq<T> {
    if fire && queue != [] then queue[..1] else []
  }

  /** What a handshake takes from the front of a queue is not lost. */
  lemma PopKeeps<T>(taken: seq<T>, queue: seq<T>, more: seq<T>, ready: bool)
    ensures taken + Delivered(queue, ready) + Popped(queue + more, queue != [] && ready) == taken + queue + more
  {
    if queue != [] && ready {
      assert (queue + more)[1..] == queue[1..] + more;
    }
  }

  /** Concatenation of a list of lists. */
  function Flatten<T>(xss: seq<seq<T>>): seq<T> {
    if xss == [] then [] else Flatten(xss[..|xss| - 1]) + xss[|xss| - 1]
  }

  lemma FlattenSnoc<T>(xss: seq<seq<T>>, xs: seq<T>)
    ensures Flatten(xss + [xs]) == Flatten(xss) + xs
  {
    assert (xss + [xs])[..|xss|] == xss;
  }

  lemma Assoc<T>(a: seq<T>, b: seq<T>, c: seq<T>)
    ensures a + (b + c) == a + b + c
  {
  }

  lemma Nothing<T>(a: seq<T>)
    ensures a + [] == a && [] + a == a
  {
  }

  lemma {:induction false} FlattenConcat<T>(xss: seq<seq<T>>, yss: seq<seq<T>>)
    ensures Flatten(xss + yss) == Flatten(xss) + Flatten(yss)
  {
    if yss == [] {
      Nothing(xss);
      Nothing(Flatten(xss));
    } else {
      var n := |yss| - 1;
      FlattenConcat(xss, yss[..n]);
      assert yss == yss[..n] + [yss[n]];
      Assoc(xss, yss[..n], [yss[n]]);
      FlattenSnoc(xss + yss[..n], yss[n]);
      FlattenSnoc(yss[..n], yss[n]);
      Assoc(Flatten(xss), Flatten(yss[..n]), yss[n]);
    }
  }
}
