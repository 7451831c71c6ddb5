/** The text and glyph buffers of the LED controller: word arrays that the driver fills with
    bytes. */
module Led {
  import opened WordBits

  /** The four shifted font bytes the driver packs into one word of the glyph buffer: column i of the
      characters j .. j + 3. */
  function Glyphs(font: seq<Word>, i: nat, j: nat): Word
    requires |font| == 1280 && i < 5 && j + 3 < 256
  {
    ShiftRight(font[j * 5 + i], 1)
    + ShiftLeft(ShiftRight(font[j * 5 + i + 5], 1), 8)
    + ShiftLeft(ShiftRight(font[j * 5 + i + 10], 1), 16)
    + ShiftLeft(ShiftRight(font[j * 5 + i + 15], 1), 24)
  }

  ghost predicate IsByte(b: Word) {
    b <= Mask(0, 8)
  }

  lemma ShiftedLane(b: Word, j: nat, k: nat)
    requires IsByte(b) && j < 4 && k < 4
    ensures Lane(ShiftLeft(b, 8 * j), k) == if k == j then b else {}
  {}

  lemma LaneOr(v: Word, w: Word, k: nat)
    ensures Lane(v + w, k) == Lane(v, k) + Lane(w, k)
  {}

  lemma LaneOfByte(b: Word, k: nat)
    requires IsByte(b)
    ensures Lane(b, k) == if k == 0 then b else {}
  {}

  /** Four bytes packed into a word lie in its four lanes. */
  lemma PackedLanes(b0: Word, b1: Word, b2: Word, b3: Word, k: nat)
    requires IsByte(b0) && IsByte(b1) && IsByte(b2) && IsByte(b3) && k < 4
    ensures Lane(b0 + ShiftLeft(b1, 8) + ShiftLeft(b2, 16) + ShiftLeft(b3, 24), k)
         == if k == 0 then b0 else if k == 1 then b1 else if k == 2 then b2 else b3
  {
    var w1 := b0 + ShiftLeft(b1, 8);
    var w2 := w1 + ShiftLeft(b2, 16);
    LaneOr(b0, ShiftLeft(b1, 8), k);
    LaneOr(w1, ShiftLeft(b2, 16), k);
    LaneOr(w2, ShiftLeft(b3, 24), k);
    LaneOfByte(b0, k);
    ShiftedLane(b1, 1, k);
    ShiftedLane(b2, 2, k);
    ShiftedLane(b3, 3, k);
  }

  lemma GlyphLane(font: seq<Word>, i: nat, j: nat, k: nat)
    requires |font| == 1280 && i < 5 && j + 3 < 256 && k < 4
    requires forall n :: 0 <= n < 1280 ==> IsByte(font[n])
    ensures Lane(Glyphs(font, i, j), k) == ShiftRight(font[5 * (j + k) + i], 1)
  {
    var n := j * 5 + i;
    PackedLanes(ShiftRight(font[n], 1), ShiftRight(font[n + 5], 1),
                ShiftRight(font[n + 10], 1), ShiftRight(font[n + 15], 1), k);
  }

  /** How much of a string fits: up to its terminator and below position 256. */
  function Fitting(position: nat, s: seq<Word>): (n: nat)
    ensures n <= |s| && (n > 0 ==> position + n <= 256)
    ensures forall k :: 0 <= k < n ==> s[k] != {}
    ensures n == |s| || s[n] == {} || position + n >= 256
    decreases |s|
  {
    if position >= 256 || s == [] || s[0] == {} then 0 else 1 + Fitting(position + 1, s[1..])
  }

  /** Replacing one lane of a word by a byte. */
  lemma PutLane(w: Word, c: Word, j: nat, k: nat)
    requires w <= ALL && IsByte(c) && j < 4 && k < 4
    ensures Lane(w * (ALL - Mask(8 * j, 8)) + ShiftLeft(c, 8 * j), k) == if k == j then c else Lane(w, k)
    ensures w * (ALL - Mask(8 * j, 8)) + ShiftLeft(c, 8 * j) <= ALL
  {}

  class Controller {
    const textBuf: array<Word>
    const decodeBuf: array<Word>

    constructor ()
      ensures Valid() && fresh(textBuf) && fresh(decodeBuf)
    {
      textBuf := new Word[128](_ => {});
      decodeBuf := new Word[320](_ => {});
    }

    /** Two frames of 64 words of text, five columns of 64 words of glyphs. */
    ghost predicate Valid()
      reads textBuf
    {
      textBuf.Length == 128 && decodeBuf.Length == 320 && forall w :: 0 <= w < 128 ==> textBuf[w] <= ALL
    }

    /** One round of the string loop: the byte at `pos` is replaced. */
    method PutChar(pos: nat, c: Word)
      requires Valid() && pos < 256 && IsByte(c)
      modifies textBuf
      ensures Valid()
      ensures forall a :: 0 <= a < 512 ==>
        Lane(textBuf[a / 4], a % 4) == if a == pos then c else old(Lane(textBuf[a / 4], a % 4))
    {
      var w, j := pos / 4, pos % 4;
      var tmp := textBuf[w] * (ALL - Mask(8 * j, 8));
      tmp := tmp + ShiftLeft(c, 8 * j);
      forall k | 0 <= k < 4
        ensures Lane(tmp, k) == (if k == j then c else Lane(textBuf[w], k)) && tmp <= ALL
      {
        PutLane(textBuf[w], c, j, k);
      }
      assert tmp <= ALL by { PutLane(textBuf[w], c, j, 0); }
      textBuf[w] := tmp;
    }

    /** Writes the part of the string that fits at its position, and changes no other byte; the
        second frame, from byte 256 on, is never touched. */
    method PutString(position: nat, s: seq<Word>)
      requires Valid() && forall k :: 0 <= k < |s| ==> IsByte(s[k])
      modifies textBuf
      ensures Valid()
      ensures forall a :: 0 <= a < 512 ==>
        Lane(textBuf[a / 4], a % 4)
        == if position <= a < position + Fitting(position, s) then s[a - position] else old(Lane(textBuf[a / 4], a % 4))
    {
      var pos, i := position, 0;
      while pos < 256 && i < |s| && s[i] != {}
        invariant Valid() && i <= |s| && pos == position + i
        invariant Fitting(position, s) == i + Fitting(pos, s[i..])
        invariant forall a :: 0 <= a < 512 ==>
          Lane(textBuf[a / 4], a % 4)
          == if position <= a < pos then s[a - position] else old(Lane(textBuf[a / 4], a % 4))
      {
        PutChar(pos, s[i]);
        assert s[i..][1..] == s[i + 1..];
        pos, i := pos + 1, i + 1;
      }
    }

    method ClearFrame(frame: nat)
      requires Valid() && frame < 2
      modifies textBuf
      ensures Valid()
      ensures forall w :: 0 <= w < 128 ==> textBuf[w] == if w / 64 == frame then {} else old(textBuf[w])
    {
      for i := 0 to 64
        invariant forall w :: 0 <= w < 128 ==>
          textBuf[w] == if frame * 64 <= w < frame * 64 + i then {} else old(textBuf[w])
      {
        textBuf[frame * 64 + i] := {};
      }
    }

    /** Fills the glyph buffer from a font of five bytes a character: byte 256 i + j is column i of
        character j, shifted right by one. */
    method InitDecodeBuf(font: seq<Word>)
      requires Valid() && decodeBuf != textBuf && |font| == 1280
      requires forall n :: 0 <= n < 1280 ==> IsByte(font[n])
      modifies decodeBuf
      ensures forall i, j :: 0 <= i < 5 && 0 <= j < 256 ==>
        Lane(decodeBuf[(256 * i + j) / 4], (256 * i + j) % 4) == ShiftRight(font[5 * j + i], 1)
    {
      var l := 0;
      for i := 0 to 5
        invariant l == 64 * i
        invariant forall n :: 0 <= n < l ==> decodeBuf[n] == Glyphs(font, n / 64, 4 * (n % 64))
      {
        var j := 0;
        while j < 256
          invariant j <= 256 && j % 4 == 0 && l == 64 * i + j / 4
          invariant forall n :: 0 <= n < l ==> decodeBuf[n] == Glyphs(font, n / 64, 4 * (n % 64))
        {
          assert l / 64 == i && 4 * (l % 64) == j;
          decodeBuf[l] := Glyphs(font, i, j);
          l := l + 1;
          j := j + 4;
        }
      }
      forall i, j | 0 <= i < 5 && 0 <= j < 256
        ensures Lane(decodeBuf[(256 * i + j) / 4], (256 * i + j) % 4) == ShiftRight(font[5 * j + i], 1)
      {
        var n := 64 * i + j / 4;
        assert (256 * i + j) / 4 == n && (256 * i + j) % 4 == j % 4;
        assert n / 64 == i && 4 * (n % 64) == j - j % 4;
        GlyphLane(font, i, j - j % 4, j % 4);
      }
    }
  }
}
