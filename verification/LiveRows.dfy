/** Which stored rows are alive: a bare length while every row is, a bitmap from the first removal on. */
module LiveRows {
  import opened Vocabulary

  const BITS := 64

  /** A machine word, bit by bit. */
  type Word = bits: seq<bool> | |bits| == BITS witness seq(BITS, _ => false)

  const NO_BITS: Word := seq(BITS, _ => false)
  const ALL_BITS: Word := seq(BITS, _ => true)

  /** The word whose lowest `count` bits are set. */
  function LowBits(count: nat): Word {
    seq(BITS, bit => bit < count)
  }

  class LiveRows {
    var allLiveLen: Option<nat>
    var words: seq<Word>

    constructor ()
      ensures forall i: nat :: !Contains(i)
      ensures allLiveLen == Some(0)
    {
      allLiveLen, words := Some(0), [];
    }

    constructor Full(len: nat)
      ensures allLiveLen == Some(len)
    {
      allLiveLen, words := Some(len), [];
    }

    predicate Contains(i: nat)
      reads this
    {
      if allLiveLen.Some? then i < allLiveLen.value
      else i / BITS < |words| && words[i / BITS][i % BITS]
    }

    predicate IsAllLive()
      reads this
    {
      allLiveLen.Some?
    }

    /** Switches to a bitmap of the first `len` rows. */
    method SparseFull(len: nat)
      modifies this
      ensures allLiveLen.None?
      ensures forall i: nat :: Contains(i) <==> i < len
    {
      var wordCount := (len + BITS - 1) / BITS;
      allLiveLen, words := None, seq(wordCount, _ => ALL_BITS);
      if len % BITS != 0 {
        words := words[wordCount - 1 := LowBits(len % BITS)];
      }
      forall i: nat ensures Contains(i) <==> i < len {
        Split(i, len);
      }
    }

    /** A row appended to an all-live prefix keeps the length form; any other goes into the bitmap. */
    method Insert(i: nat)
      modifies this
      ensures forall j: nat :: Contains(j) <==> old(Contains(j)) || j == i
      ensures allLiveLen.Some? <==> old(allLiveLen).Some? && i <= old(allLiveLen).value
      ensures allLiveLen.Some? ==> allLiveLen.value == old(allLiveLen).value + if i == old(allLiveLen).value then 1 else 0
    {
      if allLiveLen.Some? {
        if i == allLiveLen.value {
          allLiveLen := Some(allLiveLen.value + 1);
          return;
        }
        if i < allLiveLen.value {
          return;
        }
        SparseFull(allLiveLen.value);
      }
      if i / BITS >= |words| {
        Grow(i / BITS + 1);
      }
      SetBit(i, true);
    }

    method Remove(i: nat)
      modifies this
      ensures forall j: nat :: Contains(j) <==> old(Contains(j)) && j != i
      ensures allLiveLen.None?
    {
      if allLiveLen.Some? {
        SparseFull(allLiveLen.value);
      }
      if i / BITS < |words| {
        SetBit(i, false);
      }
    }

    method Grow(wordCount: nat)
      requires allLiveLen.None? && |words| <= wordCount
      modifies this`words
      ensures |words| == wordCount && forall j: nat :: Contains(j) <==> old(Contains(j))
    {
      var added: seq<Word> := seq(wordCount - |words|, _ => NO_BITS);
      words := words + added;
      forall j: nat ensures Contains(j) <==> old(Contains(j)) {
        if |old(words)| <= j / BITS < |words| {
          assert words[j / BITS] == added[j / BITS - |old(words)|] == NO_BITS;
        }
      }
    }

    method SetBit(i: nat, live: bool)
      requires allLiveLen.None? && i / BITS < |words|
      modifies this`words
      ensures forall j: nat :: Contains(j) <==> if j == i then live else old(Contains(j))
    {
      var word := words[i / BITS];
      words := words[i / BITS := word[i % BITS := live]];
      forall j: nat ensures Contains(j) <==> if j == i then live else old(Contains(j)) {
        SamePlace(i, j);
      }
    }

    method Clone() returns (copy: LiveRows)
      ensures fresh(copy) && copy.allLiveLen == allLiveLen && copy.words == words
      ensures forall i: nat :: copy.Contains(i) == Contains(i)
    {
      copy := new LiveRows();
      copy.allLiveLen, copy.words := allLiveLen, words;
    }
  }

  /** Row numbers are determined by their word and bit. */
  lemma SamePlace(i: nat, j: nat)
    ensures i / BITS == j / BITS && i % BITS == j % BITS <==> i == j
  {
  }

  lemma Split(i: nat, len: nat)
    ensures i < len <==> i / BITS < len / BITS || (i / BITS == len / BITS && i % BITS < len % BITS)
    ensures (len + BITS - 1) / BITS == if len % BITS == 0 then len / BITS else len / BITS + 1
  {
  }
}
