/** The UTF-8 token cache of the generation loop (`is_valid_utf8` and the cache in
    `completion_loop`): text is handed out only in complete groups of bytes. */
module TokenCache {
  import opened Bytes
  import opened Sequences

  /** Length of the sequence a lead byte announces, 0 if it announces none. */
  function LeadLength(c: Byte): (n: nat)
    ensures n <= 4
  {
    if c < 0x80 then 1
    else if c >> 5 == 0x6 then 2
    else if c >> 4 == 0xE then 3
    else if c >> 3 == 0x1E then 4
    else 0
  }

  predicate IsTail(b: Byte) {
    b >> 6 == 0x2
  }

  /** The front of `s` is one complete sequence of length `n`. */
  predicate Sequence(s: seq<Byte>, n: nat)
    requires s != []
  {
    n == LeadLength(s[0]) && 1 <= n <= |s| && forall k :: 1 <= k < n ==> IsTail(s[k])
  }

  /** A concatenation of complete sequences. */
  predicate Valid(s: seq<Byte>)
    decreases |s|
  {
    s == [] || (Sequence(s, LeadLength(s[0])) && Valid(s[LeadLength(s[0])..]))
  }

  method IsValidUtf8(s: seq<Byte>) returns (r: bool)
    ensures r == Valid(s)
  {
    hide LeadLength, IsTail, Valid;
    var i := 0;
    assert s[0..] == s;
    while i < |s|
      invariant 0 <= i <= |s|
      invariant Valid(s) == Valid(s[i..])
    {
      ghost var rest := s[i..];
      var len := LeadLength(s[i]);
      assert rest[0] == s[i];
      ValidUnfolds(rest);
      if len == 0 || i + len > |s| {
        return false;
      }
      var k := 1;
      while k < len
        invariant 1 <= k <= len
        invariant forall j :: 1 <= j < k ==> IsTail(rest[j])
      {
        assert rest[k] == s[i + k];
        if !IsTail(s[i + k]) {
          return false;
        }
        k := k + 1;
      }
      assert rest[len..] == s[i + len..];
      i := i + len;
    }
    ValidNothing();
    assert s[i..] == [];
    return true;
  }

  lemma ValidUnfolds(s: seq<Byte>)
    requires s != []
    ensures Valid(s) <==> Sequence(s, LeadLength(s[0])) && Valid(s[LeadLength(s[0])..])
  {
  }

  lemma ValidNothing()
    ensures Valid([])
  {
  }

  /** Behind valid text, validity is that of what follows. */
  lemma {:induction false} ValidAppend(x: seq<Byte>, y: seq<Byte>)
    requires Valid(x)
    ensures Valid(x + y) <==> Valid(y)
    decreases |x|
  {
    hide LeadLength, IsTail;
    if x == [] {
      assert x + y == y;
    } else {
      var n := LeadLength(x[0]);
      var s := x + y;
      assert s[0] == x[0] && s[n..] == x[n..] + y;
      assert forall k :: 1 <= k < n ==> s[k] == x[k];
      ValidAppend(x[n..], y);
    }
  }

  // ---- The cache --------------------------------------------------------------------

  /** What `NewStringUTF` sees of a buffer: everything before its first NUL byte. */
  function CString(s: seq<Byte>): (r: seq<Byte>)
    ensures |r| <= |s| && r == s[..|r|]
    ensures |r| < |s| ==> s[|r|] == 0
    ensures 0 !in r
  {
    if s == [] || s[0] == 0 then [] else [s[0]] + CString(s[1..])
  }

  datatype Emission = Emission(out: seq<Byte>, cache: seq<Byte>)

  function Feed(cache: seq<Byte>, piece: seq<Byte>): Emission {
    var all := cache + piece;
    if Valid(all) then Emission(CString(all), []) else Emission([], all)
  }

  class Cache {
    var bytes: seq<Byte>

    constructor ()
      ensures bytes == []
    {
      bytes := [];
    }

    /** One step of the loop: `piece` are the bytes of the new token, if it has any. */
    method Step(piece: seq<Byte>) returns (out: seq<Byte>)
      modifies this
      ensures Emission(out, bytes) == Feed(old(bytes), piece)
    {
      if |piece| > 0 {
        bytes := bytes + piece;
      } else {
        assert bytes + piece == bytes;
      }
      var ok := IsValidUtf8(bytes);
      if ok {
        out := CString(bytes);
        bytes := [];
      } else {
        out := [];
      }
    }

    /** A whole generation: the emitted strings in order. */
    method Generate(pieces: seq<seq<Byte>>) returns (outs: seq<seq<Byte>>)
      modifies this
      ensures Run(outs, bytes) == After(old(bytes), pieces)
    {
      outs := [];
      var i := 0;
      assert pieces[0..] == pieces;
      while i < |pieces|
        invariant 0 <= i <= |pieces|
        invariant After(old(bytes), pieces) ==
                  var rest := After(bytes, pieces[i..]); Run(outs + rest.outs, rest.cache)
      {
        ghost var rest := pieces[i..];
        assert rest[0] == pieces[i] && rest[1..] == pieces[i + 1..];
        ghost var more := After(Feed(bytes, rest[0]).cache, rest[1..]);
        ghost var before := outs;
        var out := Step(pieces[i]);
        assert before + ([out] + more.outs) == (before + [out]) + more.outs;
        outs := outs + [out];
        i := i + 1;
      }
      assert pieces[i..] == [] && outs + [] == outs;
    }
  }

  // ---- Whole runs -------------------------------------------------------------------

  datatype Run = Run(outs: seq<seq<Byte>>, cache: seq<Byte>)

  function After(cache: seq<Byte>, pieces: seq<seq<Byte>>): (r: Run)
    ensures |r.outs| == |pieces|
    decreases |pieces|
  {
    if pieces == [] then Run([], cache)
    else
      var e := Feed(cache, pieces[0]);
      var rest := After(e.cache, pieces[1..]);
      Run([e.out] + rest.outs, rest.cache)
  }

  lemma {:induction false} CStringValid(s: seq<Byte>)
    requires Valid(s)
    ensures Valid(CString(s))
    decreases |s|
  {
    hide LeadLength, IsTail;
    if s != [] {
      var n := LeadLength(s[0]);
      if s[0] == 0 {
      } else {
        NoNulInside(s, n);
        CStringValid(s[n..]);
        CStringFront(s, n);
        var r := CString(s[n..]);
        ValidSequence(s, n);
        ValidAppend(s[..n], r);
      }
    }
  }

  lemma NoNulInside(s: seq<Byte>, n: nat)
    requires s != [] && s[0] != 0 && Sequence(s, n)
    ensures forall k :: 0 <= k < n ==> s[k] != 0
  {
  }

  lemma {:induction false} CStringFront(s: seq<Byte>, n: nat)
    requires n <= |s| && forall k :: 0 <= k < n ==> s[k] != 0
    ensures CString(s) == s[..n] + CString(s[n..])
    decreases n
  {
    hide CString;
    if n == 0 {
      assert s[0..] == s;
    } else {
      CStringUnfolds(s);
      CStringFront(s[1..], n - 1);
      Recut(s, n, CString(s[n..]));
    }
  }

  lemma CStringUnfolds(s: seq<Byte>)
    requires s != [] && s[0] != 0
    ensures CString(s) == [s[0]] + CString(s[1..])
  {
  }

  lemma Recut(s: seq<Byte>, n: nat, tail: seq<Byte>)
    requires 1 <= n <= |s|
    ensures s[1..][n - 1..] == s[n..] && [s[0]] + (s[1..][..n - 1] + tail) == s[..n] + tail
  {
    assert [s[0]] + s[1..][..n - 1] == s[..n];
  }

  lemma ValidSequence(s: seq<Byte>, n: nat)
    requires s != [] && Sequence(s, n)
    ensures Valid(s[..n])
  {
    hide LeadLength, IsTail;
    assert s[..n][0] == s[0] && s[..n][n..] == [];
    assert forall k :: 1 <= k < n ==> s[..n][k] == s[k];
  }

  /** Safety over whole runs: everything handed out passes the check, and the cache is empty
      exactly when all bytes so far are. */
  lemma {:induction false} OnlyCompleteText(cache: seq<Byte>, pieces: seq<seq<Byte>>)
    ensures var r := After(cache, pieces);
            && (forall i :: 0 <= i < |r.outs| ==> Valid(r.outs[i]))
            && (Valid(r.cache) <==> Valid(cache + Flatten(pieces)))
            && (pieces != [] && Valid(r.cache) ==> r.cache == [])
    decreases |pieces|
  {
    hide Valid, CString;
    ValidNothing();
    if pieces == [] {
      assert cache + [] == cache;
    } else {
      var e := Feed(cache, pieces[0]);
      var all := cache + pieces[0];
      OnlyCompleteText(e.cache, pieces[1..]);
      assert cache + Flatten(pieces) == all + Flatten(pieces[1..]);
      if Valid(all) {
        CStringValid(all);
        ValidAppend(all, Flatten(pieces[1..]));
        assert e.cache + Flatten(pieces[1..]) == Flatten(pieces[1..]);
      }
      if pieces[1..] == [] {
        assert e.cache + [] == e.cache;
      }
    }
  }

  /** From an empty cache: it is empty again exactly when all bytes so far are complete text. */
  lemma CacheEmptyExactly(pieces: seq<seq<Byte>>)
    ensures After([], pieces).cache == [] <==> Valid(Flatten(pieces))
  {
    hide Valid;
    ValidNothing();
    OnlyCompleteText([], pieces);
    assert [] + Flatten(pieces) == Flatten(pieces);
  }

  // ---- Lead bytes -------------------------------------------------------------------

  predicate Continuations(s: seq<Byte>) {
    forall i :: 0 <= i < |s| ==> 0x80 <= s[i] <= 0xBF
  }

  /** A byte with continuation bytes behind it is complete exactly when there are as many as the
      byte announces: none below 0x80, one for 0xC0 to 0xDF, two for 0xE0 to 0xEF and three for
      0xF0 to 0xF7. Any other byte behind the first one starts a group of its own. */
  lemma LeadExactly(c: Byte, tails: seq<Byte>)
    requires Continuations(tails)
    ensures Valid([c] + tails) <==>
            (|tails| == 0 && c < 0x80) || (|tails| == 1 && 0xC0 <= c <= 0xDF)
            || (|tails| == 2 && 0xE0 <= c <= 0xEF) || (|tails| == 3 && 0xF0 <= c <= 0xF7)
  {
    var s := [c] + tails;
    LeadRanges(c);
    hide LeadLength;
    ValidUnfolds(s);
    var n := LeadLength(s[0]);
    forall k | 1 <= k < |s| ensures IsTail(s[k]) {
      assert s[k] == tails[k - 1];
      TailRange(s[k]);
    }
    if 1 <= n <= |s| {
      if n == |s| {
        assert s[n..] == [];
        ValidNothing();
      } else {
        assert s[n..][0] == s[n];
        TailAlone(s[n..]);
      }
    }
  }

  lemma LeadRanges(c: Byte)
    ensures LeadLength(c) == if c < 0x80 then 1 else if c < 0xC0 then 0 else if c <= 0xDF then 2
                             else if c <= 0xEF then 3 else if c <= 0xF7 then 4 else 0
  {
  }

  lemma TailRange(b: Byte)
    ensures IsTail(b) <==> 0x80 <= b <= 0xBF
  {
  }

  lemma TailAlone(s: seq<Byte>)
    requires s != [] && IsTail(s[0])
    ensures !Valid(s)
  {
    TailRange(s[0]);
    LeadRanges(s[0]);
    hide LeadLength;
    ValidUnfolds(s);
  }

  /** A complete group has nothing but continuation bytes behind its first byte. */
  lemma TailsExactly(c: Byte, tail: Byte)
    requires 0xC0 <= c <= 0xDF
    ensures Valid([c, tail]) <==> 0x80 <= tail <= 0xBF
  {
    var s := [c, tail];
    LeadRanges(c);
    TailRange(tail);
    hide LeadLength, IsTail;
    ValidUnfolds(s);
    assert s[2..] == [] && s[0] == c && s[1] == tail && LeadLength(c) == 2;
    assert Sequence(s, 2) <==> IsTail(s[1]);
    ValidNothing();
  }
}
