/** Flash memory as words that can only lose bits, and the byte store that the driver makes of
    it. */
module FlashStore {
  import opened WordBits

  const PAGE_WORDS: nat := 1024

  /** The memory as bytes, in little-endian order. */
  function Bytes(mem: seq<Word>): (b: seq<Word>)
    ensures |b| == 4 * |mem|
  {
    seq(4 * |mem|, a requires 0 <= a < 4 * |mem| => Lane(mem[a / 4], a % 4))
  }

  // ---------------------------------------------------------------- operations on words

  datatype Op =
    | ProgramByte(a: nat, data: Word)
    | ProgramHalfWord(a: nat, data: Word)
    | ProgramWord(a: nat, data: Word)
    | ErasePage(a: nat)
    | EraseAll

  predicate InBank(op: Op, words: nat) {
    match op
    case ProgramByte(a, _) => a / 4 < words
    case ProgramHalfWord(a, _) => a / 4 < words && a % 2 == 0
    case ProgramWord(a, _) => a / 4 < words && a % 4 == 0
    case ErasePage(a) => a / 4 < words
    case EraseAll => true
  }

  /** Programming can only clear bits. */
  function Programmed(mem: seq<Word>, w: nat, data: Word): seq<Word>
    requires w < |mem|
  {
    mem[w := mem[w] * data]
  }

  function ErasedPage(mem: seq<Word>, page: nat): seq<Word> {
    seq(|mem|, w requires 0 <= w < |mem| => if w / PAGE_WORDS == page then ALL else mem[w])
  }

  /** Which of four consecutive rounds of an erase, the first at `word`, meets word w. */
  function Round(word: nat, w: nat): (k: nat)
    ensures k < 4
  {
    (w + 4 - word % 4) % 4
  }

  /** The memory after the four rounds of a page erase at `word`: each round erases every fourth word
      of the page its own address lies in. */
  function ErasedFrom(mem: seq<Word>, word: nat): seq<Word> {
    seq(|mem|, w requires 0 <= w < |mem| =>
      if w / PAGE_WORDS == (word + Round(word, w)) / PAGE_WORDS then ALL else mem[w])
  }

  function ErasedAll(mem: seq<Word>): seq<Word> {
    seq(|mem|, _ => ALL)
  }

  /** What an operation of the driver does to its bank: a byte or half-word is merged into the
      word that was read and the result is programmed. */
  function Apply(mem: seq<Word>, op: Op): (m: seq<Word>)
    requires InBank(op, |mem|)
    ensures |m| == |mem|
  {
    match op
    case ProgramByte(a, data) => Programmed(mem, a / 4, Merge(mem[a / 4], data, 8 * (a % 4), 8))
    case ProgramHalfWord(a, data) => Programmed(mem, a / 4, Merge(mem[a / 4], data, 8 * (a % 4), 16))
    case ProgramWord(a, data) => Programmed(mem, a / 4, data)
    case ErasePage(a) => ErasedFrom(mem, a / 4)
    case EraseAll => ErasedAll(mem)
  }

  // ---------------------------------------------------------------- the byte store

  /** How many bytes an operation programs. */
  function Width(op: Op): nat {
    match op
    case ProgramByte(_, _) => 1
    case ProgramHalfWord(_, _) => 2
    case ProgramWord(_, _) => 4
    case _ => 0
  }

  /** The byte store: a program clears bits in its own bytes, an erase sets a page (see `PageErase`) or
      everything to 0xFF, and nothing else changes. */
  function Stored(b: seq<Word>, op: Op, i: nat): Word
    requires i < |b|
  {
    match op
    case ErasePage(a) =>
      if i / 4 / PAGE_WORDS == (a / 4 + Round(a / 4, i / 4)) / PAGE_WORDS then Lane(ALL, 0) else b[i]
    case EraseAll => Lane(ALL, 0)
    case _ => if op.a <= i < op.a + Width(op) then b[i] * Lane(op.data, i - op.a) else b[i]
  }

  function Store(b: seq<Word>, op: Op): (r: seq<Word>)
    ensures |r| == |b|
  {
    seq(|b|, i requires 0 <= i < |b| => Stored(b, op, i))
  }

  /** Programming a merged field clears bits of that field and of no other. */
  lemma MergedLane(w: Word, data: Word, first: nat, count: nat, k: nat)
    requires w <= ALL && first + count <= 4 && k < 4
    ensures Lane(w * Merge(w, data, 8 * first, 8 * count), k)
         == if first <= k < first + count then Lane(w, k) * Lane(data, k - first) else Lane(w, k)
  {}

  lemma ErasedLane(k: nat)
    requires k < 4
    ensures Lane(ALL, k) == Lane(ALL, 0)
  {}

  ghost predicate Proper(mem: seq<Word>) {
    forall w :: 0 <= w < |mem| ==> mem[w] <= ALL
  }

  /** Programming the merge of `count` bytes at address a, seen at byte i. */
  lemma MergeStored(mem: seq<Word>, a: nat, count: nat, data: Word, i: nat)
    requires Proper(mem) && a / 4 < |mem| && a % 4 + count <= 4 && i < 4 * |mem|
    ensures var m := Programmed(mem, a / 4, Merge(mem[a / 4], data, 8 * (a % 4), 8 * count));
      Lane(m[i / 4], i % 4)
      == if a <= i < a + count then Lane(mem[i / 4], i % 4) * Lane(data, i - a) else Lane(mem[i / 4], i % 4)
  {
    if i / 4 == a / 4 {
      MergedLane(mem[i / 4], data, a % 4, count, i % 4);
    }
  }

  lemma WordStored(mem: seq<Word>, a: nat, data: Word, i: nat)
    requires a / 4 < |mem| && a % 4 == 0 && i < 4 * |mem|
    ensures Lane(Programmed(mem, a / 4, data)[i / 4], i % 4)
      == if a <= i < a + 4 then Lane(mem[i / 4], i % 4) * Lane(data, i - a) else Lane(mem[i / 4], i % 4)
  {
    if i / 4 == a / 4 {
      FieldAnd(mem[i / 4], data, 8 * (i % 4), 8);
    }
  }

  lemma EraseStored(mem: seq<Word>, op: Op, i: nat)
    requires InBank(op, |mem|) && i < 4 * |mem| && (op.ErasePage? || op.EraseAll?)
    ensures Lane(Apply(mem, op)[i / 4], i % 4) == Stored(Bytes(mem), op, i)
  {
    ErasedLane(i % 4);
    assert Bytes(mem)[i] == Lane(mem[i / 4], i % 4);
  }

  lemma StoredAt(mem: seq<Word>, op: Op, i: nat)
    requires Proper(mem) && InBank(op, |mem|) && i < 4 * |mem|
    ensures Lane(Apply(mem, op)[i / 4], i % 4) == Stored(Bytes(mem), op, i)
  {
    match op {
      case ProgramByte(a, data) => MergeStored(mem, a, 1, data, i);
      case ProgramHalfWord(a, data) => MergeStored(mem, a, 2, data, i);
      case ProgramWord(a, data) => WordStored(mem, a, data, i);
      case _ => EraseStored(mem, op, i);
    }
  }

  /** One operation of the driver is one operation of the byte store. */
  lemma ApplyIsStore(mem: seq<Word>, op: Op)
    requires Proper(mem) && InBank(op, |mem|)
    ensures Bytes(Apply(mem, op)) == Store(Bytes(mem), op) && Proper(Apply(mem, op))
  {
    forall i | 0 <= i < 4 * |mem| ensures Bytes(Apply(mem, op))[i] == Store(Bytes(mem), op)[i] {
      StoredAt(mem, op, i);
    }
  }

  ghost predicate AllInBank(ops: seq<Op>, words: nat) {
    forall k :: 0 <= k < |ops| ==> InBank(ops[k], words)
  }

  function ApplyAll(mem: seq<Word>, ops: seq<Op>): (m: seq<Word>)
    requires AllInBank(ops, |mem|)
    ensures |m| == |mem|
    decreases |ops|
  {
    if ops == [] then mem else ApplyAll(Apply(mem, ops[0]), ops[1..])
  }

  function StoreAll(b: seq<Word>, ops: seq<Op>): seq<Word>
    decreases |ops|
  {
    if ops == [] then b else StoreAll(Store(b, ops[0]), ops[1..])
  }

  /** Any run of programs and erases on the word memory is the same run on the byte store. */
  lemma {:induction false} RunIsStore(mem: seq<Word>, ops: seq<Op>)
    requires Proper(mem) && AllInBank(ops, |mem|)
    ensures Bytes(ApplyAll(mem, ops)) == StoreAll(Bytes(mem), ops)
    decreases |ops|
  {
    if ops != [] {
      ApplyIsStore(mem, ops[0]);
      RunIsStore(Apply(mem, ops[0]), ops[1..]);
    }
  }

  // ---------------------------------------------------------------- the erase of a page

  /** Not one of the last three words of a page. */
  predicate Aimed(word: nat) {
    word % PAGE_WORDS < PAGE_WORDS - 3
  }

  lemma SamePage(word: nat, k: nat)
    requires k < 4
    ensures Aimed(word) ==> (word + k) / PAGE_WORDS == word / PAGE_WORDS
    ensures !Aimed(word) ==>
      word >= 1 && (word - 1) / PAGE_WORDS == word / PAGE_WORDS && (word + 3) / PAGE_WORDS == word / PAGE_WORDS + 1
  {
    var q, m := word / PAGE_WORDS, word % PAGE_WORDS;
    assert word == q * PAGE_WORDS + m;
  }

  /** From such a word the four rounds erase exactly the page. */
  lemma PageErase(mem: seq<Word>, word: nat)
    requires Aimed(word)
    ensures ErasedFrom(mem, word) == ErasedPage(mem, word / PAGE_WORDS)
  {
    forall w | 0 <= w < |mem|
      ensures (word + Round(word, w)) / PAGE_WORDS == word / PAGE_WORDS
    {
      SamePage(word, Round(word, w));
    }
  }

  lemma RoundBefore(word: nat)
    requires word >= 1
    ensures Round(word, word - 1) == 3
  {}

  /** And only from such a word: from the last three the rounds run on into the next page and leave
      words of this one as they were. */
  lemma ErasesItsPageIff(mem: seq<Word>, word: nat)
    requires word < |mem| && forall w :: 0 <= w < |mem| ==> mem[w] != ALL
    ensures ErasedFrom(mem, word) == ErasedPage(mem, word / PAGE_WORDS) <==> Aimed(word)
  {
    if Aimed(word) {
      PageErase(mem, word);
    } else {
      SamePage(word, 3);
      RoundBefore(word);
      assert ErasedFrom(mem, word)[word - 1] == mem[word - 1];
      assert ErasedPage(mem, word / PAGE_WORDS)[word - 1] == ALL;
    }
  }

  lemma ErasedByte(mem: seq<Word>, page: nat, i: nat)
    requires i < 4 * |mem| && i / 4 / PAGE_WORDS == page
    ensures Bytes(ErasedPage(mem, page))[i] == Lane(ALL, 0)
  {
    ErasedLane(i % 4);
  }

  /** A program stays inside one word. */
  lemma OneWord(op: Op, words: nat, i: nat)
    requires InBank(op, words) && Width(op) > 0 && op.a <= i < op.a + Width(op)
    ensures i / 4 == op.a / 4
  {}

  lemma ProgramErased(mem: seq<Word>, op: Op, i: nat)
    requires Proper(mem) && InBank(op, |mem|) && i < 4 * |mem| && Bytes(mem)[i] == Lane(ALL, 0)
    requires Width(op) > 0 && op.a <= i < op.a + Width(op)
    ensures Bytes(Apply(mem, op))[i] == Lane(op.data, i - op.a)
  {
    ApplyIsStore(mem, op);
    assert Store(Bytes(mem), op)[i] == Bytes(mem)[i] * Lane(op.data, i - op.a);
    assert Lane(ALL, 0) * Lane(op.data, i - op.a) == Lane(op.data, i - op.a);
  }

  /** What is programmed into a page erased from address e is read back exactly, at every alignment
      the operation allows. */
  lemma EraseProgramRead(mem: seq<Word>, e: nat, op: Op, i: nat)
    requires Proper(mem) && InBank(op, |mem|) && InBank(ErasePage(e), |mem|) && i < 4 * |mem|
    requires Width(op) > 0 && op.a <= i < op.a + Width(op)
    requires Aimed(e / 4) && e / 4 / PAGE_WORDS == op.a / 4 / PAGE_WORDS
    ensures Bytes(Apply(Apply(mem, ErasePage(e)), op))[i] == Lane(op.data, i - op.a)
  {
    var m := Apply(mem, ErasePage(e));
    PageErase(mem, e / 4);
    OneWord(op, |mem|, i);
    ErasedByte(mem, op.a / 4 / PAGE_WORDS, i);
    ApplyIsStore(mem, ErasePage(e));
    ProgramErased(m, op, i);
  }
}
