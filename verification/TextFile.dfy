/** Reading a text file into a buffer of fixed size. */
module TextFile {
  type Bytes = seq<int>

  const NEWLINE := 10

  /** Where the line that begins at `pos` ends, with its newline. */
  function LineEnd(text: Bytes, pos: nat): (e: nat)
    requires pos <= |text|
    ensures pos <= e <= |text| && (pos < |text| ==> pos < e)
    decreases |text| - pos
  {
    if pos == |text| then pos
    else if text[pos] == NEWLINE then pos + 1
    else LineEnd(text, pos + 1)
  }

  /** Where a read into a buffer of `size` bytes stops: at the end of the line, if that fits. */
  function ChunkEnd(text: Bytes, pos: nat, size: nat): (e: nat)
    requires pos <= |text| && size > 0
    ensures pos <= e <= LineEnd(text, pos)
    ensures pos < |text| && size > 1 ==> pos < e
  {
    if LineEnd(text, pos) - pos < size then LineEnd(text, pos) else pos + size - 1
  }

  lemma {:induction false} LineEndIs(text: Bytes, pos: nat, e: nat)
    requires pos <= |text| && pos <= e < LineEnd(text, pos)
    ensures LineEnd(text, e) == LineEnd(text, pos)
    decreases e - pos
  {
    if e > pos {
      LineEndIs(text, pos + 1, e);
    }
  }

  /** The newline that ends a line is its first one. */
  lemma {:induction false} LineEndBytes(text: Bytes, pos: nat)
    requires pos <= |text|
    ensures forall k :: pos <= k < LineEnd(text, pos) - 1 ==> text[k] != NEWLINE
    ensures pos < LineEnd(text, pos) < |text| ==> text[LineEnd(text, pos) - 1] == NEWLINE
    decreases |text| - pos
  {
    if pos < |text| && text[pos] != NEWLINE {
      LineEndBytes(text, pos + 1);
    }
  }

  /** `fgets`: on to the newline, the end of the file or the end of the buffer. */
  method Fgets(text: Bytes, pos: nat, size: nat) returns (e: nat)
    requires pos <= |text| && size > 1
    ensures e == ChunkEnd(text, pos, size)
  {
    e := pos;
    LineEndBytes(text, pos);
    while e < |text| && e - pos < size - 1 && (e == pos || text[e - 1] != NEWLINE)
      invariant pos <= e <= LineEnd(text, pos) && e - pos <= size - 1
    {
      e := e + 1;
    }
  }
}
