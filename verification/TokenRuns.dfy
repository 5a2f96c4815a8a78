/** What a whole generation hands out, in terms of its token pieces: which bytes come out with
    which token, which are lost, and after which bytes nothing comes out any more. */
module TokenRuns {
  import opened Bytes
  import opened Sequences
  import opened TokenCache

  /** The last of the first `i` token boundaries at which all bytes so far are complete text. */
  function LastCut(pieces: seq<seq<Byte>>, i: nat): (r: nat)
    requires i <= |pieces|
    ensures r <= i && (r > 0 ==> Valid(Flatten(pieces[..r])))
    ensures forall k :: r < k <= i ==> !Valid(Flatten(pieces[..k]))
  {
    if i == 0 || Valid(Flatten(pieces[..i])) then i else LastCut(pieces, i - 1)
  }

  lemma {:induction false} AfterAppend(cache: seq<Byte>, a: seq<seq<Byte>>, b: seq<seq<Byte>>)
    ensures var r, s := After(cache, a), After(After(cache, a).cache, b);
            After(cache, a + b) == Run(r.outs + s.outs, s.cache)
    decreases |a|
  {
    hide Feed;
    if a == [] {
      assert [] + b == b && [] + After(cache, b).outs == After(cache, b).outs;
    } else {
      assert (a + b)[0] == a[0] && (a + b)[1..] == a[1..] + b;
      var e := Feed(cache, a[0]);
      AfterAppend(e.cache, a[1..], b);
      var s := After(After(e.cache, a[1..]).cache, b);
      Assoc([e.out], After(e.cache, a[1..]).outs, s.outs);
    }
  }

  lemma AfterOne(cache: seq<Byte>, piece: seq<Byte>)
    ensures After(cache, [piece]) == Run([Feed(cache, piece).out], Feed(cache, piece).cache)
  {
    hide Feed;
    var e := Feed(cache, piece);
    assert [piece][1..] == [] && [e.out] + [] == [e.out];
  }

  lemma FlattenCut(pieces: seq<seq<Byte>>, j: nat, i: nat)
    requires j <= i <= |pieces|
    ensures Flatten(pieces[..i]) == Flatten(pieces[..j]) + Flatten(pieces[j..i])
  {
    assert pieces[..i] == pieces[..j] + pieces[j..i];
    FlattenAppend(pieces[..j], pieces[j..i]);
  }

  lemma FlattenNext(pieces: seq<seq<Byte>>, j: nat, i: nat)
    requires j <= i < |pieces|
    ensures Flatten(pieces[j..i + 1]) == Flatten(pieces[j..i]) + pieces[i]
  {
    assert pieces[j..i + 1] == pieces[j..i] + [pieces[i]];
    FlattenSnoc(pieces[j..i], pieces[i]);
  }

  /** One more token: the bytes since the last boundary are complete exactly when all are. */
  lemma ChunkComplete(pieces: seq<seq<Byte>>, i: nat)
    requires i < |pieces|
    ensures var chunk := Flatten(pieces[LastCut(pieces, i)..i + 1]);
            Valid(chunk) <==> Valid(Flatten(pieces[..i + 1]))
  {
    hide Valid, Flatten;
    var j := LastCut(pieces, i);
    FlattenCut(pieces, j, i + 1);
    FlattenNothing(pieces);
    ValidNothing();
    ValidAppend(Flatten(pieces[..j]), Flatten(pieces[j..i + 1]));
  }

  lemma FlattenNothing(pieces: seq<seq<Byte>>)
    ensures Flatten(pieces[..0]) == []
  {
  }

  /** The cache holds exactly the bytes since the last boundary. */
  lemma {:induction false} CacheExactly(pieces: seq<seq<Byte>>, i: nat)
    requires i <= |pieces|
    ensures After([], pieces[..i]).cache == Flatten(pieces[LastCut(pieces, i)..i])
    decreases i
  {
    hide Valid, CString;
    if i == 0 {
      assert pieces[..0] == [];
    } else {
      hide Flatten;
      CacheExactly(pieces, i - 1);
      LastStep(pieces, i - 1);
      ChunkComplete(pieces, i - 1);
      FlattenNext(pieces, LastCut(pieces, i - 1), i - 1);
      NothingSince(pieces, i);
    }
  }

  lemma NothingSince(pieces: seq<seq<Byte>>, i: nat)
    requires i <= |pieces|
    ensures Flatten(pieces[i..i]) == []
  {
  }

  lemma LastStep(pieces: seq<seq<Byte>>, i: nat)
    requires i < |pieces|
    ensures var r, e := After([], pieces[..i]), Feed(After([], pieces[..i]).cache, pieces[i]);
            After([], pieces[..i + 1]) == Run(r.outs + [e.out], e.cache)
  {
    hide After, Feed;
    assert pieces[..i + 1] == pieces[..i] + [pieces[i]];
    AfterAppend([], pieces[..i], [pieces[i]]);
    AfterOne(After([], pieces[..i]).cache, pieces[i]);
  }

  /** What token `i` hands out: if all bytes so far are complete text, the bytes since the last
      token for which they were, up to the first NUL; otherwise nothing. */
  lemma OutputExactly(pieces: seq<seq<Byte>>, i: nat)
    requires i < |pieces|
    ensures After([], pieces).outs[i] ==
            if Valid(Flatten(pieces[..i + 1])) then CString(Flatten(pieces[LastCut(pieces, i)..i + 1])) else []
  {
    hide Valid, CString, Flatten, LastCut;
    CacheExactly(pieces, i);
    LastStep(pieces, i);
    ChunkComplete(pieces, i);
    FlattenNext(pieces, LastCut(pieces, i), i);
    assert pieces == pieces[..i + 1] + pieces[i + 1..];
    AfterAppend([], pieces[..i + 1], pieces[i + 1..]);
  }

  // ---- Bytes that are lost ----------------------------------------------------------

  /** Text handed out so far against the bytes it stands for, one chunk later. */
  lemma EmittedParts(outs: seq<Byte>, before: seq<Byte>, out: seq<Byte>, now: seq<Byte>)
    requires out == CString(now) && |outs| <= |before|
    requires outs == before <==> 0 !in before
    ensures |outs + out| <= |before + now|
    ensures outs + out == before + now <==> 0 !in before + now
  {
    hide CString;
    if outs + out == before + now {
      assert outs == (outs + out)[..|outs|] && before == (before + now)[..|before|];
      assert out == (outs + out)[|outs|..] && now == (before + now)[|before|..];
    }
  }

  lemma {:induction false} EmittedUntil(pieces: seq<seq<Byte>>, i: nat)
    requires i <= |pieces|
    ensures var outs, done := Flatten(After([], pieces[..i]).outs), Flatten(pieces[..LastCut(pieces, i)]);
            |outs| <= |done| && (outs == done <==> 0 !in done)
    decreases i
  {
    hide Valid, CString, Flatten;
    if i == 0 {
      assert pieces[..0] == [];
      NothingEmitted();
    } else {
      EmittedUntil(pieces, i - 1);
      LastStep(pieces, i - 1);
      CacheExactly(pieces, i - 1);
      ChunkComplete(pieces, i - 1);
      var j := LastCut(pieces, i - 1);
      FlattenNext(pieces, j, i - 1);
      var r := After([], pieces[..i - 1]);
      var e := Feed(r.cache, pieces[i - 1]);
      FlattenSnoc(r.outs, e.out);
      if Valid(Flatten(pieces[..i])) {
        FlattenCut(pieces, j, i);
        EmittedParts(Flatten(r.outs), Flatten(pieces[..j]), e.out, Flatten(pieces[j..i]));
      } else {
        assert Flatten(r.outs) + [] == Flatten(r.outs);
      }
    }
  }

  lemma NothingEmitted()
    ensures Flatten(After([], []).outs) == []
  {
  }

  /** The emitted strings followed by the cache are the concatenated pieces exactly when no
      beginning of the pieces is complete text with a NUL in it: `NewStringUTF` ends there. */
  lemma NothingLostExactly(pieces: seq<seq<Byte>>)
    ensures var r := After([], pieces);
            Flatten(r.outs) + r.cache == Flatten(pieces) <==>
            forall k :: 1 <= k <= |pieces| && Valid(Flatten(pieces[..k])) ==> 0 !in Flatten(pieces[..k])
  {
    hide Valid, CString, Flatten;
    var n := |pieces|;
    var j := LastCut(pieces, n);
    assert pieces[..n] == pieces;
    EmittedUntil(pieces, n);
    CacheExactly(pieces, n);
    FlattenCut(pieces, j, n);
    FlattenNothing(pieces);
    var r := After([], pieces);
    var done := Flatten(pieces[..j]);
    SameFront(Flatten(r.outs), done, r.cache);
    if 0 !in done {
      forall k | 1 <= k <= n && Valid(Flatten(pieces[..k])) ensures 0 !in Flatten(pieces[..k]) {
        FlattenCut(pieces, k, j);
      }
    }
  }

  lemma SameFront(a: seq<Byte>, b: seq<Byte>, c: seq<Byte>)
    ensures a + c == b + c <==> a == b
  {
    if a + c == b + c {
      assert |a| == |b|;
      assert a == (a + c)[..|a|] && b == (b + c)[..|b|];
    }
  }

  /** `a`, NUL, `b` as one token: the `b` is lost, and the cache is empty. */
  lemma BytesLost()
    ensures After([], [[0x61, 0x00, 0x62]]) == Run([[0x61]], [])
  {
    var piece: seq<Byte> := [0x61, 0x00, 0x62];
    AfterOne([], piece);
    assert [] + piece == piece;
    var rest: seq<Byte> := [0x00, 0x62];
    assert piece[1..] == rest && rest[1..] == [0x62] && [0x62 as Byte][1..] == [];
    assert Valid([0x62]) && Valid(rest) && Valid(piece);
    assert CString(rest) == [] && [0x61 as Byte] + [] == [0x61];
  }

  // ---- Bytes that block the output --------------------------------------------------

  /** Some continuation makes the bytes complete text: every group but the last is complete,
      and the last one starts with a lead byte and has only continuation bytes so far. */
  predicate Completable(s: seq<Byte>)
    decreases |s|
  {
    s == [] ||
    (var n := LeadLength(s[0]);
     && n >= 1
     && (forall k :: 1 <= k < n && k < |s| ==> IsTail(s[k]))
     && (|s| <= n || Completable(s[n..])))
  }

  ghost predicate Hopeless(s: seq<Byte>) {
    forall more :: !Valid(s + more)
  }

  const TAIL: Byte := 0x80

  function Completion(s: seq<Byte>): (more: seq<Byte>)
    requires Completable(s)
    decreases |s|
  {
    if s == [] then []
    else
      var n := LeadLength(s[0]);
      if |s| <= n then seq(n - |s|, _ => TAIL) else Completion(s[n..])
  }

  lemma {:induction false} CompletionCompletes(s: seq<Byte>)
    requires Completable(s)
    ensures Valid(s + Completion(s))
    decreases |s|
  {
    hide LeadLength, IsTail, Valid;
    if s == [] {
      assert s + Completion(s) == [];
      ValidNothing();
    } else {
      var n := LeadLength(s[0]);
      var all := s + Completion(s);
      assert all[0] == s[0];
      ValidUnfolds(all);
      if |s| <= n {
        Filled(s, n);
        ValidNothing();
      } else {
        CompletionCompletes(s[n..]);
        assert all[n..] == s[n..] + Completion(s[n..]);
        assert forall k :: 1 <= k < n ==> all[k] == s[k];
      }
    }
  }

  lemma Filled(s: seq<Byte>, n: nat)
    requires |s| <= n && forall k :: 1 <= k < n && k < |s| ==> IsTail(s[k])
    ensures var all := s + seq(n - |s|, _ => TAIL);
            |all| == n && all[n..] == [] && forall k :: 1 <= k < n ==> k < |s| || IsTail(all[k])
    ensures var all := s + seq(n - |s|, _ => TAIL);
            forall k :: 1 <= k < n && k < |s| ==> IsTail(all[k])
  {
    TailIsTail();
    hide IsTail;
    var all := s + seq(n - |s|, _ => TAIL);
    assert forall k :: 0 <= k < |s| ==> all[k] == s[k];
  }

  lemma TailIsTail()
    ensures IsTail(TAIL)
  {
  }

  lemma {:induction false} CompletedWasCompletable(s: seq<Byte>, more: seq<Byte>)
    requires Valid(s + more)
    ensures Completable(s)
    decreases |s|
  {
    if s != [] {
      var n := LeadLength(s[0]);
      hide LeadLength, IsTail;
      var all := s + more;
      assert all[0] == s[0];
      assert forall k :: 1 <= k < n && k < |s| ==> all[k] == s[k];
      if |s| > n {
        assert all[n..] == s[n..] + more;
        CompletedWasCompletable(s[n..], more);
      }
    }
  }

  lemma HopelessExactly(s: seq<Byte>)
    ensures Hopeless(s) <==> !Completable(s)
  {
    hide Valid, Completable;
    if Completable(s) {
      CompletionCompletes(s);
    } else {
      forall more ensures !Valid(s + more) {
        if Valid(s + more) {
          CompletedWasCompletable(s, more);
        }
      }
    }
  }

  /** However the generation goes on, nothing more is handed out. */
  ghost predicate Blocked(pieces: seq<seq<Byte>>) {
    forall more: seq<seq<Byte>> ::
      Flatten(After([], pieces + more).outs) == Flatten(After([], pieces).outs)
  }

  /** While the cached bytes cannot be completed, they stay and nothing is handed out. */
  lemma {:induction false} HopelessForever(cache: seq<Byte>, pieces: seq<seq<Byte>>)
    requires Hopeless(cache)
    ensures var r := After(cache, pieces);
            Flatten(r.outs) == [] && r.cache == cache + Flatten(pieces)
    decreases |pieces|
  {
    if pieces == [] {
      assert cache + [] == cache;
    } else {
      var all := cache + pieces[0];
      assert !Valid(all);
      forall more ensures !Valid(all + more) {
        assert all + more == cache + (pieces[0] + more);
      }
      HopelessForever(all, pieces[1..]);
      assert all + Flatten(pieces[1..]) == cache + Flatten(pieces);
      var outs := After(all, pieces[1..]).outs;
      assert ([[]] + outs)[1..] == outs && [] + Flatten(outs) == Flatten(outs);
    }
  }

  /** The cached bytes can be completed exactly when all bytes so far can. */
  lemma CompletableCache(pieces: seq<seq<Byte>>)
    ensures Completable(After([], pieces).cache) <==> Completable(Flatten(pieces))
  {
    hide Valid, Completable, After, Flatten;
    var n := |pieces|;
    var j := LastCut(pieces, n);
    assert pieces[..n] == pieces;
    CacheExactly(pieces, n);
    FlattenCut(pieces, j, n);
    FlattenNothing(pieces);
    ValidNothing();
    var front, cache := Flatten(pieces[..j]), Flatten(pieces[j..n]);
    HopelessExactly(cache);
    HopelessExactly(front + cache);
    forall more ensures Valid(cache + more) <==> Valid(front + cache + more) {
      ValidAppend(front, cache + more);
      assert front + (cache + more) == front + cache + more;
    }
  }

  /** The two tokens that get a completable cache going again. */
  lemma Unblocked(cache: seq<Byte>)
    requires Completable(cache)
    ensures Flatten(After(cache, [Completion(cache), [0x61]]).outs) != []
  {
    hide Completable, Valid;
    CompletionCompletes(cache);
    var more := [Completion(cache), [0x61]];
    assert more == [Completion(cache)] + [[0x61]];
    AfterAppend(cache, [Completion(cache)], [[0x61]]);
    AfterOne(cache, Completion(cache));
    AfterOne([], [0x61]);
    LetterHandedOut();
    var outs := After(cache, more).outs;
    FlattenAppend([outs[0]], [[0x61]]);
    FlattenSnoc<Byte>([], [0x61]);
    assert [] + [[0x61 as Byte]] == [[0x61]];
    assert outs == [outs[0]] + [[0x61]];
  }

  lemma LetterHandedOut()
    ensures Feed([], [0x61]) == Emission([0x61], [])
  {
    var s: seq<Byte> := [0x61];
    assert [] + s == s && s[1..] == [];
    assert CString(s) == [0x61] + CString(s[1..]);
  }

  /** Output stops for good exactly when the bytes so far cannot be completed. */
  lemma BlockedExactly(pieces: seq<seq<Byte>>)
    ensures Blocked(pieces) <==> !Completable(Flatten(pieces))
  {
    hide Completable, After, Flatten;
    var r := After([], pieces);
    CompletableCache(pieces);
    HopelessExactly(r.cache);
    if Completable(r.cache) {
      var more := [Completion(r.cache), [0x61]];
      Unblocked(r.cache);
      Appended(pieces, more);
      assert |Flatten(After([], pieces + more).outs)| > |Flatten(r.outs)|;
    } else {
      forall more: seq<seq<Byte>> ensures Flatten(After([], pieces + more).outs) == Flatten(r.outs) {
        HopelessForever(r.cache, more);
        Appended(pieces, more);
        assert Flatten(r.outs) + [] == Flatten(r.outs);
      }
    }
  }

  lemma Appended(pieces: seq<seq<Byte>>, more: seq<seq<Byte>>)
    ensures Flatten(After([], pieces + more).outs)
         == Flatten(After([], pieces).outs) + Flatten(After(After([], pieces).cache, more).outs)
  {
    hide After, Flatten;
    AfterAppend([], pieces, more);
    FlattenAppend(After([], pieces).outs, After(After([], pieces).cache, more).outs);
  }

  /** Two ways to block the output: a byte that starts no group, behind text or not, and a lead
      byte that is not continued. */
  lemma BlockingBytes()
    ensures Blocked([[0x61, 0xFF]]) && Blocked([[0xE2], [0x28]]) && !Blocked([[0xE2], [0x82]])
  {
    hide Blocked, Flatten;
    BlockedExactly([[0x61, 0xFF]]);
    BlockedExactly([[0xE2], [0x28]]);
    BlockedExactly([[0xE2], [0x82]]);
    FlattenedPieces();
    var bad: seq<Byte> := [0x61, 0xFF];
    assert bad[1..] == [0xFF];
    assert !Completable(bad[1..]);
    var open: seq<Byte> := [0xE2, 0x28];
    assert LeadLength(open[0]) == 3 && !IsTail(open[1]);
  }

  lemma FlattenedPieces()
    ensures Flatten<Byte>([[0x61, 0xFF]]) == [0x61, 0xFF]
    ensures Flatten<Byte>([[0xE2], [0x28]]) == [0xE2, 0x28]
    ensures Flatten<Byte>([[0xE2], [0x82]]) == [0xE2, 0x82]
  {
    hide Flatten;
    FlattenTwo([0x61, 0xFF], []);
    FlattenTwo([0xE2], [0x28]);
    FlattenTwo([0xE2], [0x82]);
    FlattenOne([0x61, 0xFF]);
  }

  lemma FlattenOne(a: seq<Byte>)
    ensures Flatten([a]) == a
  {
    assert [a][1..] == [] && a + [] == a;
  }

  lemma FlattenTwo(a: seq<Byte>, b: seq<Byte>)
    ensures Flatten([a, b]) == a + b
  {
    assert [a, b][1..] == [b];
    FlattenOne(b);
  }
}
