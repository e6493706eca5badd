/** `mm_t`: the memory model's byte array and the operations that update it in place. */
module MemoryModel {
  import opened Arith
  import opened Axi
  import opened ByteStore
  import opened HexImage

  class Memory {
    const data: array<Byte>
    const word: nat

    ghost predicate Valid() {
      StoreRecord(seq(data.Length, _ => 0), word).Ok()
    }

    ghost function Contents(): (s: Store)
      requires Valid()
      reads data
      ensures s.word == word && |s.mem| == data.Length
    {
      StoreRecord(data[..], word)
    }

    /** Beyond the checks of `init`, the memory must be a whole number of words of
        at most 16 bytes; the mapped pages start out as zeros. */
    constructor Init(size: nat, word: nat, line: nat)
      requires word > 0 && line > 0 && BitAnd(line, line - 1) == 0 && line % word == 0
      requires 0 < size && size % word == 0 && word <= 16
      ensures Valid() && fresh(data)
      ensures Contents() == StoreRecord(seq(size, _ => 0), word)
    {
      data := new Byte[size](_ => 0);
      this.word := word;
      InitGivesWordSize(word, line);
    }

    method Write(addr: nat, w: WBeat, size: nat)
      requires Valid() && |w.data| == word
      requires size + word <= 32 || size == 64
      modifies data
      ensures Contents() == WriteBeat(old(Contents()), addr, w, size)
    {
      ghost var before := Contents();
      var strobe := w.strb;
      if size != 64 {
        strobe := BitAnd(strobe, RunOfOnes(size, addr % word));
      }
      WordFits(addr, data.Length, word);
      WriteLanes(BaseOf(addr, data.Length, word), strobe, w.data);
      assert Contents().mem == WriteBeat(before, addr, w, size).mem;
    }

    /** The loop of `write`: store the strobed bytes of one word. */
    method WriteLanes(base: nat, mask: nat, bytes: seq<Byte>)
      requires Valid() && |bytes| == word && base + word <= data.Length
      modifies data
      ensures LanesDone(old(data[..]), data[..], base, word, mask, bytes)
    {
      ghost var before := data[..];
      var strobe, i := mask, 0;
      while i < word
        invariant i <= word
        invariant forall k: nat :: Bit(strobe, k) == Bit(mask, i + k)
        invariant LanesDone(before, data[..], base, i, mask, bytes)
      {
        NextStrobe(strobe, mask, i);
        if strobe % 2 == 1 {
          data[base + i] := bytes[i];
        }
        strobe := strobe / 2;
        i := i + 1;
      }
    }

    method Read(addr: nat) returns (r: seq<Byte>)
      requires Valid() && addr % data.Length + word <= data.Length
      ensures r == ReadWord(Contents(), addr)
    {
      var a := addr % data.Length;
      r := data[a..a + word];
      assert data[a..a + word] == data[..][a..][..word];
    }

    /** Load a hex image; `ok` is false where the source reports the file as too
        large and aborts. */
    method LoadMem(start: nat, lines: seq<string>) returns (ok: bool)
      requires Valid() && start < WORD_RANGE
      requires forall line :: line in lines ==> HexLine(line)
      modifies data
      ensures ok <==> |Image(lines)| <= data.Length
      ensures ok ==> Contents() == Loaded(old(Contents()), start, Image(lines))
    {
      ghost var before := Contents();
      var at, fsize, n := start, 0, 0;
      while n < |lines|
        invariant n <= |lines|
        invariant forall line :: line in lines[..n] ==> HexLine(line)
        invariant fsize == |Image(lines[..n])| <= data.Length
        invariant at == Wrap(start + fsize)
        invariant Contents() == Loaded(before, start, Image(lines[..n]))
      {
        var line := lines[n];
        ImageSnoc(lines, n);
        LoadLine(at, line, start, Image(lines[..n]), before);
        var count := |LineBytes(line)|;
        at, fsize := Advance(at, start, fsize, count);
        n := n + 1;
        if fsize > data.Length {
          ImageGrows(lines, n);
          return false;
        }
      }
      assert lines[..n] == lines;
      ok := true;
    }

    static method Advance(at: nat, ghost start: nat, fsize: nat, count: nat) returns (at': nat, fsize': nat)
      requires at == Wrap(start + fsize)
      ensures at' == Wrap(start + fsize') && fsize' == fsize + count
    {
      WrapAdd(start + fsize, count);
      at', fsize' := Wrap(at + count), fsize + count;
    }

    static lemma NextByte(image: seq<Byte>, bytes: seq<Byte>, j: nat)
      requires j < |bytes|
      ensures image + bytes[..j + 1] == image + bytes[..j] + [bytes[j]]
    {
    }

    /** One byte of a line. */
    method LoadByte(at: nat, line: string, j: nat, ghost start: nat, ghost image: seq<Byte>, ghost before: Store)
      requires Valid() && HexLine(line) && at == Wrap(start + |image|) && 2 * j + 2 <= |line|
      requires |before.mem| == data.Length && before.word == word
      requires Contents() == Loaded(before, start, image + LineBytes(line)[..j])
      modifies data
      ensures Contents() == Loaded(before, start, image + LineBytes(line)[..j + 1])
    {
      var i := |line| - 2 - 2 * j;
      var byte: Byte := ParseNibble(line[i]) * 16 + ParseNibble(line[i + 1]);
      ghost var front := image + LineBytes(line)[..j];
      PositionShift(before, start, |image|, j);
      LoadedSnoc(before, start, front, byte);
      NextByte(image, LineBytes(line), j);
      data[Wrap(at + j) % data.Length] := byte;
    }

    /** The inner loop of `load_mem`: one line, from its right end. */
    method LoadLine(at: nat, line: string, ghost start: nat, ghost image: seq<Byte>, ghost before: Store)
      requires Valid() && HexLine(line) && at == Wrap(start + |image|)
      requires |before.mem| == data.Length && before.word == word
      requires Contents() == Loaded(before, start, image)
      modifies data
      ensures Contents() == Loaded(before, start, image + LineBytes(line))
    {
      assert image + LineBytes(line)[..0] == image;
      var i, j := |line| - 2, 0;
      while i >= 0
        invariant i == |line| - 2 - 2 * j && 0 <= j <= |line| / 2
        invariant Contents() == Loaded(before, start, image + LineBytes(line)[..j])
      {
        LoadByte(at, line, j, start, image, before);
        i, j := i - 2, j + 1;
      }
      assert LineBytes(line)[..j] == LineBytes(line);
    }
  }

  /** The strobed ones of the first n lanes at `base` have been written. */
  ghost predicate LanesDone(before: seq<Byte>, now: seq<Byte>, base: nat, n: nat, mask: nat, bytes: seq<Byte>) {
    |now| == |before| && n <= |bytes| &&
    forall p :: 0 <= p < |now| ==>
      now[p] == if base <= p < base + n && Bit(mask, p - base) then bytes[p - base] else before[p]
  }

  /** Shifting the strobes down by one moves on to the next lane. */
  lemma NextStrobe(strobe: nat, mask: nat, i: nat)
    requires forall k: nat :: Bit(strobe, k) == Bit(mask, i + k)
    ensures strobe % 2 == 1 <==> Bit(mask, i)
    ensures forall k: nat :: Bit(strobe / 2, k) == Bit(mask, i + 1 + k)
  {
    assert Bit(strobe, 0) == Bit(mask, i + 0);
    forall k: nat ensures Bit(strobe / 2, k) == Bit(mask, i + 1 + k) {
      assert Bit(strobe, k + 1) == Bit(mask, i + (k + 1));
    }
  }

  lemma ImageSnoc(lines: seq<string>, n: nat)
    requires n < |lines| && forall line :: line in lines ==> HexLine(line)
    ensures HexLine(lines[n])
    ensures forall line :: line in lines[..n] ==> HexLine(line)
    ensures forall line :: line in lines[..n + 1] ==> HexLine(line)
    ensures Image(lines[..n + 1]) == Image(lines[..n]) + LineBytes(lines[n])
  {
    assert lines[n] in lines;
    assert lines[..n + 1][..n] == lines[..n] && lines[..n + 1][n] == lines[n];
  }

  lemma {:induction false} ImageGrows(lines: seq<string>, n: nat)
    requires n <= |lines| && forall line :: line in lines ==> HexLine(line)
    ensures forall line :: line in lines[..n] ==> HexLine(line)
    ensures |Image(lines[..n])| <= |Image(lines)|
    decreases |lines|
  {
    if n < |lines| {
      var m := |lines| - 1;
      assert forall line :: line in lines[..m] ==> line in lines;
      ImageGrows(lines[..m], n);
      assert lines[..m][..n] == lines[..n];
    } else {
      assert lines[..n] == lines;
    }
  }
}
