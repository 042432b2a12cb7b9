/** The byte-order-mark fix-up applied to the front-end's `index.html`: the file's
    bytes gain a UTF-8 BOM unless they already start with one. */
module Encoding {

  newtype byte = b: int | 0 <= b < 256

  /** The UTF-8 byte-order mark EF BB BF. */
  const Bom: seq<byte> := [0xEF, 0xBB, 0xBF]

  /** `content[i]` of a Node Buffer: the byte, or `undefined` past the end. */
  function ByteAt(content: seq<byte>, i: nat): (r: int)
    ensures i < |content| ==> r == content[i] as int
    ensures |content| <= i ==> r == -1
  {
    if i < |content| then content[i] as int else -1
  }

  /** The test the script makes: some of the first three positions is not EF, BB, BF. */
  predicate MissingBom(content: seq<byte>)
  {
    ByteAt(content, 0) != 0xEF || ByteAt(content, 1) != 0xBB || ByteAt(content, 2) != 0xBF
  }

  /** The test says "missing" exactly when the buffer does not begin with the BOM,
      short buffers included. */
  lemma MissingBomIffNoPrefix(content: seq<byte>)
    ensures MissingBom(content) <==> !(|content| >= 3 && content[..3] == Bom)
  {
    if |content| >= 3 && !MissingBom(content) {
      assert content[..3] == [content[0], content[1], content[2]];
    }
  }

  /** `Buffer.concat([BOM, content])` when the BOM is missing, else the content itself. */
  function WithBom(content: seq<byte>): (r: seq<byte>)
    ensures |r| >= 3 && r[..3] == Bom
    ensures |r| == |content| + (if MissingBom(content) then 3 else 0)
    ensures r[|r| - |content|..] == content
  {
    if MissingBom(content) then Bom + content else content
  }

  /** Running the fix-up twice gives the same bytes as running it once. */
  lemma WithBomIdempotent(content: seq<byte>)
    ensures WithBom(WithBom(content)) == WithBom(content)
  {
    var once := WithBom(content);
    assert !MissingBom(once) by {
      assert once[..3] == Bom;
      assert once[0] == 0xEF && once[1] == 0xBB && once[2] == 0xBF;
    }
  }
}
