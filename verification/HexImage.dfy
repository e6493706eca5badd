/** The hex image format read by `load_mem`: one little-endian block per line,
    written from its right end. */
module HexImage {
  import opened Axi
  import opened ByteStore

  predicate HexDigit(c: char) {
    '0' <= c <= '9' || 'a' <= c <= 'f'
  }

  predicate HexLine(line: string) {
    forall c :: c in line ==> HexDigit(c)
  }

  /** `parse_nibble`. */
  function ParseNibble(c: char): (n: nat)
    requires HexDigit(c)
    ensures n < 16
  {
    if c >= 'a' then c as int - 'a' as int + 10 else c as int - '0' as int
  }

  function PrintNibble(n: nat): (c: char)
    requires n < 16
    ensures HexDigit(c) && ParseNibble(c) == n
  {
    if n < 10 then (n + '0' as int) as char else (n - 10 + 'a' as int) as char
  }

  /** Byte j of a line, counted from its right end. */
  function LineByte(line: string, j: nat): Byte
    requires HexLine(line) && 2 * j + 2 <= |line|
  {
    var i := |line| - 2 - 2 * j;
    ParseNibble(line[i]) * 16 + ParseNibble(line[i + 1])
  }

  function LineBytes(line: string): (bytes: seq<Byte>)
    requires HexLine(line)
    ensures |bytes| == |line| / 2
  {
    seq(|line| / 2, j requires 0 <= j < |line| / 2 => LineByte(line, j))
  }

  /** The bytes of a whole file. */
  function Image(lines: seq<string>): (bytes: seq<Byte>)
    requires forall line :: line in lines ==> HexLine(line)
  {
    if lines == [] then [] else Image(lines[..|lines| - 1]) + LineBytes(lines[|lines| - 1])
  }

  function Present(bytes: seq<Byte>): (flat: seq<Option<Byte>>)
    ensures |flat| == |bytes|
  {
    seq(|bytes|, i requires 0 <= i < |bytes| => Some(bytes[i]))
  }

  /** The store after loading an image. */
  function Loaded(s: Store, start: nat, bytes: seq<Byte>): Store {
    FlatWrite(s, start, Present(bytes))
  }

  lemma LoadedSnoc(s: Store, start: nat, bytes: seq<Byte>, b: Byte)
    ensures Loaded(s, start, bytes + [b]) ==
            var t := Loaded(s, start, bytes); t.(mem := t.mem[Position(s, start, |bytes|) := b])
  {
    assert Present(bytes + [b])[..|bytes|] == Present(bytes);
  }

  /** No two of the first n bytes from `start` share a position. */
  ghost predicate OwnPositions(s: Store, start: nat, n: nat) {
    forall p: nat, q: nat :: p < q < n ==> Position(s, start, p) != Position(s, start, q)
  }

  /** So for an image that fits, unless a carry leaves the address. */
  lemma FittingOwnsPositions(s: Store, start: nat, n: nat)
    requires n <= |s.mem| && CarryFree(s, start, n)
    ensures OwnPositions(s, start, n)
  {
    forall p: nat, q: nat | p < q < n ensures Position(s, start, p) != Position(s, start, q) {
      PositionsDistinct(s, start, p, q, n);
    }
  }

  /** The image is found at `(start + p) mod size`. */
  ghost predicate Lies(s: Store, start: nat, bytes: seq<Byte>) {
    forall p: nat :: p < |bytes| ==> s.mem[Position(s, start, p)] == bytes[p]
  }

  /** Loading lays the image out, and nothing else changes. */
  lemma LoadPlacesImage(s: Store, start: nat, bytes: seq<Byte>)
    requires OwnPositions(s, start, |bytes|)
    ensures Lies(Loaded(s, start, bytes), start, bytes)
    ensures forall q :: 0 <= q < |s.mem| && (forall p :: 0 <= p < |bytes| ==> Position(s, start, p) != q)
              ==> Loaded(s, start, bytes).mem[q] == s.mem[q]
  {
    var flat := Present(bytes);
    forall p: nat | p < |bytes| ensures Loaded(s, start, bytes).mem[Position(s, start, p)] == bytes[p] {
      var q := Position(s, start, p);
      FlatWriteAt(s, start, flat, q);
      assert forall j: nat :: p < j ==> !Hits(s, start, flat, j, q);
      assert Hits(s, start, flat, p, q);
    }
    forall q | 0 <= q < |s.mem| && (forall p :: 0 <= p < |bytes| ==> Position(s, start, p) != q)
      ensures Loaded(s, start, bytes).mem[q] == s.mem[q]
    {
      FlatWriteAt(s, start, flat, q);
    }
  }

  lemma SharedPosition(s: Store, start: nat, bytes: seq<Byte>, p: nat, q: nat)
    requires p < q < |bytes| && Position(s, start, p) == Position(s, start, q) && bytes[p] != bytes[q]
    ensures !Lies(Loaded(s, start, bytes), start, bytes)
  {
  }

  /** Every image of n bytes is found where it was loaded exactly when its bytes have positions of
      their own. */
  lemma LiesIffOwnPositions(s: Store, start: nat, n: nat)
    ensures (forall bytes: seq<Byte> :: |bytes| == n ==> Lies(Loaded(s, start, bytes), start, bytes)) <==>
            OwnPositions(s, start, n)
  {
    if OwnPositions(s, start, n) {
      forall bytes: seq<Byte> | |bytes| == n ensures Lies(Loaded(s, start, bytes), start, bytes) {
        LoadPlacesImage(s, start, bytes);
      }
    } else {
      var p: nat, q: nat :| p < q < n && Position(s, start, p) == Position(s, start, q);
      var bytes: seq<Byte> := seq(n, i => if i == q then 1 else 0);
      SharedPosition(s, start, bytes, p, q);
    }
  }

  // ---------- printing ----------

  /** The line that shows a block of bytes. */
  function PrintLine(bytes: seq<Byte>): (line: string)
    ensures |line| == 2 * |bytes| && HexLine(line)
  {
    seq(2 * |bytes|, i requires 0 <= i < 2 * |bytes| =>
      var b := bytes[|bytes| - 1 - i / 2];
      PrintNibble(if i % 2 == 0 then b / 16 else b % 16))
  }

  function PrintAll(blocks: seq<seq<Byte>>): (lines: seq<string>)
    ensures |lines| == |blocks| && forall line :: line in lines ==> HexLine(line)
  {
    seq(|blocks|, i requires 0 <= i < |blocks| => PrintLine(blocks[i]))
  }

  lemma ParsePrinted(bytes: seq<Byte>)
    ensures LineBytes(PrintLine(bytes)) == bytes
  {
    forall j | 0 <= j < |bytes| ensures LineByte(PrintLine(bytes), j) == bytes[j] {
      PrintedPair(bytes, j);
    }
  }

  lemma PrintedPair(bytes: seq<Byte>, j: nat)
    requires j < |bytes|
    ensures LineByte(PrintLine(bytes), j) == bytes[j]
  {
    var line := PrintLine(bytes);
    var i := |line| - 2 - 2 * j;
    assert i / 2 == |bytes| - 1 - j && (i + 1) / 2 == |bytes| - 1 - j;
    assert i % 2 == 0 && (i + 1) % 2 == 1;
    assert line[i] == PrintNibble(bytes[j] / 16) && line[i + 1] == PrintNibble(bytes[j] % 16);
  }

  // ---------- the meaning of a line ----------

  const DIGITS: string := "0123456789abcdef"

  lemma ParsedIsDigit(c: char)
    requires HexDigit(c)
    ensures DIGITS[ParseNibble(c)] == c
  {
  }

  /** A line as one hexadecimal number, the leftmost digit the most significant. */
  function Numeral(line: string): nat
    requires HexLine(line)
  {
    if line == [] then 0 else 16 * Numeral(line[..|line| - 1]) + ParseNibble(line[|line| - 1])
  }

  /** The number that bytes in memory stand for, the first byte the least significant. */
  function LittleEndian(bytes: seq<Byte>): nat {
    if bytes == [] then 0 else bytes[0] + 256 * LittleEndian(bytes[1..])
  }

  lemma LastPair(line: string)
    requires HexLine(line) && |line| >= 2
    ensures HexLine(line[..|line| - 2])
    ensures var n := |line| - 2;
            LineBytes(line) == [ParseNibble(line[n]) * 16 + ParseNibble(line[n + 1])] + LineBytes(line[..n])
  {
    var front := line[..|line| - 2];
    forall j | 0 <= j < |front| / 2 ensures LineByte(line, j + 1) == LineByte(front, j) {
    }
  }

  /** A line of an even number of digits is laid down as its number, little-endian. */
  lemma {:induction false} LineIsNumber(line: string)
    requires HexLine(line) && |line| % 2 == 0
    ensures LittleEndian(LineBytes(line)) == Numeral(line)
    decreases |line|
  {
    if line != [] {
      var front := line[..|line| - 2];
      LastPair(line);
      LineIsNumber(front);
      assert line[..|line| - 1][..|line| - 2] == front;
      assert LineBytes(line)[1..] == LineBytes(front);
    }
  }

  lemma NibbleOfParsed(c: char)
    requires HexDigit(c)
    ensures PrintNibble(ParseNibble(c)) == c
  {
  }

  /** Printing what an even line says gives the line back. */
  lemma PrintParsed(line: string)
    requires HexLine(line) && |line| % 2 == 0
    ensures PrintLine(LineBytes(line)) == line
  {
    var bytes := LineBytes(line);
    forall i | 0 <= i < |line| ensures PrintLine(bytes)[i] == line[i] {
      var j := |bytes| - 1 - i / 2;
      var h := |line| - 2 - 2 * j;
      assert line[h] in line && line[h + 1] in line;
      assert bytes[j] / 16 == ParseNibble(line[h]) && bytes[j] % 16 == ParseNibble(line[h + 1]);
      NibbleOfParsed(line[h]);
      NibbleOfParsed(line[h + 1]);
      assert if i % 2 == 0 then i == h else i == h + 1;
    }
  }

  /** Loading inverts printing, however the bytes are cut into lines. */
  lemma {:induction false} ImageOfPrinted(blocks: seq<seq<Byte>>)
    ensures Image(PrintAll(blocks)) == Flatten(blocks)
  {
    if blocks != [] {
      var n := |blocks| - 1;
      ImageOfPrinted(blocks[..n]);
      ParsePrinted(blocks[n]);
      assert PrintAll(blocks)[..n] == PrintAll(blocks[..n]);
    }
  }
}
