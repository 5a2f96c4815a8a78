/** Prompt decoding in batches (`batch_add` and the truncation and chunk loop of
    `completion_init`). */
module PromptBatches {
  import opened Sequences

  type Token = int

  const N_BATCH := 512

  datatype Entry = Entry(token: Token, pos: int, seqId: int, logits: bool)

  /** The fixed-size arrays of a batch and how much of them is in use. */
  class Batch {
    const token: array<Token>
    const pos: array<int>
    const seqId: array<int>
    const logits: array<bool>
    var count: nat

    ghost predicate Valid()
      reads this
    {
      && token.Length == pos.Length == seqId.Length == logits.Length == N_BATCH
      && pos != seqId && token != pos && token != seqId
      && count <= N_BATCH
    }

    ghost function Repr(): set<object> {
      {this, token, pos, seqId, logits}
    }

    function Contents(): (r: seq<Entry>)
      requires Valid()
      reads this, token, pos, seqId, logits
      ensures |r| == count
    {
      seq(count, i requires 0 <= i < count reads this, token, pos, seqId, logits requires Valid() =>
        Entry(token[i], pos[i], seqId[i], logits[i]))
    }

    constructor ()
      ensures Valid() && fresh(Repr()) && Contents() == []
    {
      token, pos := new Token[N_BATCH], new int[N_BATCH];
      seqId, logits := new int[N_BATCH], new bool[N_BATCH];
      count := 0;
    }

    method Add(id: Token, p: int, wantLogits: bool)
      requires Valid() && count < N_BATCH
      modifies Repr()
      ensures Valid() && Contents() == old(Contents()) + [Entry(id, p, 0, wantLogits)]
    {
      token[count] := id;
      pos[count] := p;
      seqId[count] := 0;
      logits[count] := wantLogits;
      count := count + 1;
    }

    method Reset()
      requires Valid()
      modifies this
      ensures Valid() && Contents() == []
    {
      count := 0;
    }

    method MarkLast()
      requires Valid() && count > 0
      modifies logits
      ensures Valid() && count == old(count)
      ensures Contents() == old(Contents())[count - 1 := old(Contents())[count - 1].(logits := true)]
    {
      logits[count - 1] := true;
    }
  }

  // ---- The specification ------------------------------------------------------------

  /** C++ division by 4 truncates toward zero. */
  function Quarter(n: int): int {
    if n >= 0 then n / 4 else -(-n / 4)
  }

  function MaxPrompt(nCtx: int): (m: int)
    ensures m >= 1
    ensures nCtx >= 1 ==> m + Quarter(nCtx) == nCtx
  {
    var m := nCtx - Quarter(nCtx);
    if m < 1 then 1 else m
  }

  /** The most recent tokens that fit. */
  function Kept(tokens: seq<Token>, nCtx: int): seq<Token> {
    var m := MaxPrompt(nCtx);
    if |tokens| > m then tokens[|tokens| - m..] else tokens
  }

  function Min(a: int, b: int): int {
    if a < b then a else b
  }

  function EntryAt(tokens: seq<Token>, i: nat): Entry
    requires i < |tokens|
  {
    Entry(tokens[i], i, 0, i == |tokens| - 1)
  }

  /** Entries `from` to `to` of a prompt: consecutive positions, logits for the very last one. */
  function Entries(tokens: seq<Token>, from: nat, to: nat): seq<Entry>
    requires from <= to <= |tokens|
  {
    seq(to - from, i requires 0 <= i < to - from => EntryAt(tokens, from + i))
  }

  predicate GoodSizes(batches: seq<seq<Entry>>) {
    forall k :: 0 <= k < |batches| ==> 1 <= |batches[k]| <= N_BATCH && (k < |batches| - 1 ==> |batches[k]| == N_BATCH)
  }

  /** What `decode(k)` says about the k-th batch: true if it succeeds. */
  type Decoder = nat -> bool

  /** The batches sent to the decoder cover the kept tokens from the front, up to and
      including the first one it fails on. All of them are sent if none fails. */
  method CompletionInit(tokens: seq<Token>, nCtx: int, batch: Batch, decode: Decoder)
    returns (n: nat, sent: seq<seq<Entry>>)
    requires batch.Valid()
    modifies batch.Repr()
    ensures n == |Kept(tokens, nCtx)| == Min(|tokens|, MaxPrompt(nCtx))
    ensures nCtx >= 1 ==> n + Quarter(nCtx) <= nCtx
    ensures GoodSizes(sent)
    ensures |Flatten(sent)| <= n && Flatten(sent) == Entries(Kept(tokens, nCtx), 0, |Flatten(sent)|)
    ensures forall k :: 0 <= k < |sent| - 1 ==> decode(k)
    ensures |Flatten(sent)| < n ==> sent != [] && !decode(|sent| - 1)
  {
    hide Entries, Flatten, GoodSizes, FullSizes;
    var kept := Truncate(tokens, nCtx);
    n := |kept|;
    sent := [];
    var i := 0;
    NothingSent(kept);
    while i < n
      invariant 0 <= i <= n && batch.Valid()
      invariant SentSoFar(kept, sent, i)
      invariant forall k :: 0 <= k < |sent| ==> decode(k)
      decreases n - i
    {
      var chunk := Min(N_BATCH, n - i);
      FillBatch(batch, kept, i, chunk, i + chunk >= n);
      NextSent(kept, sent, i, chunk, batch.Contents());
      sent := sent + [batch.Contents()];
      i := i + chunk;
      if !decode(|sent| - 1) {
        break;
      }
    }
    SentLength(kept, sent, i);
  }

  /** Drops the oldest tokens of a prompt that leaves no room for the reply. */
  method Truncate(tokens: seq<Token>, nCtx: int) returns (kept: seq<Token>)
    ensures kept == Kept(tokens, nCtx)
  {
    var maxNew := Quarter(nCtx);
    var maxPrompt := if nCtx - maxNew > 1 then nCtx - maxNew else 1;
    kept := tokens;
    if |kept| > maxPrompt {
      var drop := |kept| - maxPrompt;
      kept := kept[drop..];
    }
  }

  predicate FullSizes(batches: seq<seq<Entry>>) {
    forall k :: 0 <= k < |batches| ==> |batches[k]| == N_BATCH
  }

  /** The batches sent hold the first `i` entries; while more follow, they are all full. */
  predicate SentSoFar(kept: seq<Token>, sent: seq<seq<Entry>>, i: nat)
  {
    i <= |kept| && Flatten(sent) == Entries(kept, 0, i) && GoodSizes(sent) && (i < |kept| ==> FullSizes(sent))
  }

  lemma NothingSent(kept: seq<Token>)
    ensures SentSoFar(kept, [], 0)
  {
  }

  lemma NextSent(kept: seq<Token>, sent: seq<seq<Entry>>, i: nat, chunk: nat, batch: seq<Entry>)
    requires i < |kept| && SentSoFar(kept, sent, i) && chunk == Min(N_BATCH, |kept| - i)
    requires batch == Entries(kept, i, i + chunk)
    ensures SentSoFar(kept, sent + [batch], i + chunk)
  {
    hide Flatten;
    FlattenSnoc(sent, batch);
    assert Entries(kept, 0, i + chunk) == Entries(kept, 0, i) + Entries(kept, i, i + chunk);
    assert |batch| == chunk;
  }

  lemma SentLength(kept: seq<Token>, sent: seq<seq<Entry>>, i: nat)
    requires SentSoFar(kept, sent, i)
    ensures |Flatten(sent)| == i && Flatten(sent) == Entries(kept, 0, i) && GoodSizes(sent)
    ensures i > 0 ==> sent != []
  {
  }

  /** The entries of a batch before its last one is marked. */
  function Unmarked(kept: seq<Token>, i: nat, n: nat): seq<Entry>
    requires i + n <= |kept|
  {
    seq(n, k requires 0 <= k < n => Entry(kept[i + k], i + k, 0, false))
  }

  method FillBatch(batch: Batch, kept: seq<Token>, i: nat, chunk: nat, isLast: bool)
    requires batch.Valid() && 1 <= chunk <= N_BATCH && i + chunk <= |kept| && isLast == (i + chunk >= |kept|)
    modifies batch.Repr()
    ensures batch.Valid() && batch.Contents() == Entries(kept, i, i + chunk)
  {
    batch.Reset();
    var j := 0;
    while j < chunk
      invariant 0 <= j <= chunk && batch.Valid() && batch.count == j
      invariant batch.Contents() == Unmarked(kept, i, j)
    {
      batch.Add(kept[i + j], i + j, false);
      j := j + 1;
    }
    MarkedEntries(kept, i, chunk);
    if isLast {
      batch.MarkLast();
    }
  }

  lemma MarkedEntries(kept: seq<Token>, i: nat, n: nat)
    requires 1 <= n && i + n <= |kept|
    ensures var es := Unmarked(kept, i, n);
            Entries(kept, i, i + n) == if i + n >= |kept| then es[n - 1 := es[n - 1].(logits := true)] else es
  {
    var es := Unmarked(kept, i, n);
    var marked := if i + n >= |kept| then es[n - 1 := es[n - 1].(logits := true)] else es;
    forall k | 0 <= k < n ensures Entries(kept, i, i + n)[k] == marked[k] {
      assert Entries(kept, i, i + n)[k] == EntryAt(kept, i + k);
      assert es[k] == Entry(kept[i + k], i + k, 0, false);
    }
  }

  /** With every batch decoded, the entries are the kept tokens at positions 0 to n - 1, and
      exactly the last one asks for logits. */
  lemma AllEntries(tokens: seq<Token>, nCtx: int)
    ensures var kept := Kept(tokens, nCtx);
            var es := Entries(kept, 0, |kept|);
            && |es| == |kept| <= |tokens| && kept == tokens[|tokens| - |kept|..]
            && forall i :: 0 <= i < |es| ==>
                 es[i].token == kept[i] && es[i].pos == i && (es[i].logits <==> i == |es| - 1)
  {
  }

  /** A prompt may take three quarters of the context, rounded up, and always one token. */
  lemma MaxPromptExactly(nCtx: int, m: int)
    ensures MaxPrompt(nCtx) == m <==> if nCtx >= 1 then 3 * nCtx <= 4 * m < 3 * nCtx + 4 else m == 1
  {
  }

  /** Batches of such sizes hold at most 512 entries, and all but the last one hold 512. */
  lemma SizesExactly(batches: seq<seq<Entry>>)
    ensures GoodSizes(batches) <==>
            && (forall k :: 0 <= k < |batches| - 1 ==> |batches[k]| == 512)
            && (batches != [] ==> 1 <= |batches[|batches| - 1]| <= 512)
  {
    if && (forall k :: 0 <= k < |batches| - 1 ==> |batches[k]| == 512)
       && (batches != [] ==> 1 <= |batches[|batches| - 1]| <= 512)
    {
      forall k | 0 <= k < |batches|
        ensures 1 <= |batches[k]| <= N_BATCH && (k < |batches| - 1 ==> |batches[k]| == N_BATCH)
      {
      }
    }
  }
}
