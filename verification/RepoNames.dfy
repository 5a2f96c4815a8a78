/** Repository ids and their cache folder names (`is_valid_repo_id`, `repo_to_folder_name`,
    `folder_name_to_repo`). */
module RepoNames {
  import opened StringReplace

  predicate IsBase(c: char) {
    'A' <= c <= 'Z' || 'a' <= c <= 'z' || '0' <= c <= '9' || c == '_'
  }

  predicate IsSpecial(c: char) {
    c == '/' || c == '.' || c == '-'
  }

  function Slashes(s: string): nat {
    if s == "" then 0 else Slashes(s[..|s| - 1]) + if s[|s| - 1] == '/' then 1 else 0
  }

  /** Every special character stands between two base characters. */
  predicate Surrounded(s: string) {
    forall i :: 0 <= i < |s| && IsSpecial(s[i]) ==> 0 < i < |s| - 1 && IsBase(s[i - 1]) && IsBase(s[i + 1])
  }

  predicate Allowed(s: string) {
    forall i :: 0 <= i < |s| ==> IsBase(s[i]) || IsSpecial(s[i])
  }

  predicate ValidRepoId(s: string) {
    1 <= |s| <= 256 && Allowed(s) && Surrounded(s) && Slashes(s) == 1
  }

  method IsValidRepoId(repoId: string) returns (r: bool)
    ensures r <==> ValidRepoId(repoId)
  {
    if repoId == "" || |repoId| > 256 {
      return false;
    }
    var slash := 0;
    var special := true;
    var i := 0;
    while i < |repoId|
      invariant 0 <= i <= |repoId|
      invariant special <==> i == 0 || IsSpecial(repoId[i - 1])
      invariant slash == Slashes(repoId[..i])
      invariant forall k :: 0 <= k < i ==> IsBase(repoId[k]) || IsSpecial(repoId[k])
      invariant forall k :: 0 <= k < i && IsSpecial(repoId[k]) ==>
                  0 < k && IsBase(repoId[k - 1]) && (k + 1 < i ==> IsBase(repoId[k + 1]))
    {
      var c := repoId[i];
      assert repoId[..i + 1][..i] == repoId[..i] && repoId[..i + 1][i] == c;
      if IsBase(c) {
        special := false;
      } else if IsSpecial(c) {
        if special {
          return false;
        }
        slash := slash + if c == '/' then 1 else 0;
        special := true;
      } else {
        return false;
      }
      i := i + 1;
    }
    assert repoId[..i] == repoId;
    return !special && slash == 1;
  }

  const PREFIX := "models--"

  method RepoToFolderName(repoId: string) returns (folder: string)
    ensures folder == FolderOf(repoId)
  {
    folder := PREFIX + repoId;
    folder := StringReplaceAll(folder, "/", "--");
  }

  function FolderOf(repoId: string): string {
    Replaced(PREFIX + repoId, "/", "--")
  }

  function RepoOf(folder: string): string {
    if PREFIX <= folder then Replaced(folder[|PREFIX|..], "--", "/") else ""
  }

  method FolderNameToRepo(folder: string) returns (repoId: string)
    ensures repoId == RepoOf(folder)
  {
    if !(PREFIX <= folder) {
      return "";
    }
    repoId := folder[|PREFIX|..];
    repoId := StringReplaceAll(repoId, "--", "/");
  }

  /** No dash is followed by another dash or by a slash. */
  predicate NoDashRun(s: string) {
    forall i :: 0 <= i < |s| - 1 && s[i] == '-' ==> s[i + 1] != '-' && s[i + 1] != '/'
  }

  function Dashed(s: string): string {
    Replaced(s, "/", "--")
  }

  lemma DashedCons(s: string)
    requires s != ""
    ensures Dashed(s) == (if s[0] == '/' then "--" else [s[0]]) + Dashed(s[1..])
  {
    if "/" <= s {
      assert s[..1] == "/";
    }
  }

  lemma SlashedCons(s: string)
    requires s != ""
    ensures Replaced(s, "--", "/") ==
            if |s| > 1 && s[0] == '-' && s[1] == '-' then "/" + Replaced(s[2..], "--", "/")
            else [s[0]] + Replaced(s[1..], "--", "/")
  {
    if "--" <= s {
      assert s[..2] == "--";
    }
  }

  lemma NoDashRunCons(s: string)
    requires s != ""
    ensures NoDashRun(s) <==>
            NoDashRun(s[1..]) && !(|s| > 1 && s[0] == '-' && (s[1] == '-' || s[1] == '/'))
  {
    assert forall i :: 0 <= i < |s| - 1 ==> s[1..][i] == s[i + 1];
    if NoDashRun(s[1..]) && !(|s| > 1 && s[0] == '-' && (s[1] == '-' || s[1] == '/')) {
      forall i | 0 <= i < |s| - 1 && s[i] == '-' ensures s[i + 1] != '-' && s[i + 1] != '/' {
        if i > 0 {
          assert s[1..][i - 1] == s[i];
        }
      }
    }
  }

  /** Slashes come back from double dashes exactly when no dash ran into one. */
  lemma {:induction false} BackExactly(s: string)
    ensures Replaced(Dashed(s), "--", "/") == s <==> NoDashRun(s)
    decreases |s|
  {
    if s != "" {
      hide Replaced, Dashed, NoDashRun;
      var rest := s[1..];
      var e := Dashed(rest);
      DashedCons(s);
      NoDashRunCons(s);
      BackExactly(rest);
      SlashedCons(Dashed(s));
      var back := Replaced(e, "--", "/");
      assert s == [s[0]] + rest;
      if s[0] == '/' {
        assert Dashed(s)[2..] == e;
        SameTail('/', back, rest);
      } else {
        assert Dashed(s)[1..] == e;
        if rest == "" {
          NothingDashed();
        } else {
          DashedCons(rest);
          assert e[0] == if rest[0] == '/' then '-' else rest[0];
        }
        SameTail(s[0], back, rest);
        if s[0] == '-' && rest != "" && e[0] == '-' {
          assert Replaced(Dashed(s), "--", "/")[0] == '/';
        }
      }
    } else {
      NothingDashed();
    }
  }

  lemma SameTail(c: char, a: string, b: string)
    ensures [c] + a == [c] + b <==> a == b
  {
    if [c] + a == [c] + b {
      assert a == ([c] + a)[1..] && b == ([c] + b)[1..];
    }
  }

  lemma NothingDashed()
    ensures Dashed("") == "" && Replaced("", "--", "/") == ""
  {
  }

  /** The prefix of a folder name stays as it is. */
  lemma FolderPrefixed(repoId: string)
    ensures FolderOf(repoId) == PREFIX + Dashed(repoId)
  {
    var s := PREFIX + repoId;
    forall p | 0 <= p < |PREFIX| ensures !Matches(s, "/", p) {
      assert s[p] == PREFIX[p] && PREFIX[p] != '/';
    }
    CopiedUntil(s, "/", "--", |PREFIX|);
    assert s[..|PREFIX|] == PREFIX && s[|PREFIX|..] == repoId;
  }

  /** The folder codec, with its exact condition over all strings. */
  lemma FolderRoundTripExactly(repoId: string)
    ensures RepoOf(FolderOf(repoId)) == repoId <==> NoDashRun(repoId)
  {
    hide Replaced;
    FolderPrefixed(repoId);
    var folder := FolderOf(repoId);
    assert PREFIX <= folder && folder[|PREFIX|..] == Dashed(repoId);
    BackExactly(repoId);
  }

  /** Valid ids always come back, so distinct ids never share a folder. */
  lemma ValidIdsRoundTrip(a: string, b: string)
    requires ValidRepoId(a) && ValidRepoId(b)
    ensures RepoOf(FolderOf(a)) == a
    ensures FolderOf(a) == FolderOf(b) ==> a == b
  {
    hide Replaced;
    ValidHasNoRun(a);
    ValidHasNoRun(b);
    FolderRoundTripExactly(a);
    FolderRoundTripExactly(b);
  }

  lemma ValidHasNoRun(s: string)
    requires Surrounded(s)
    ensures NoDashRun(s)
  {
    forall i | 0 <= i < |s| - 1 && s[i] == '-' ensures s[i + 1] != '-' && s[i + 1] != '/' {
      assert IsSpecial(s[i]);
    }
  }

  /** Outside the valid ids two names can share a folder. */
  lemma InvalidIdsCollide()
    ensures FolderOf("a/b") == FolderOf("a--b")
  {
    hide Replaced;
    FolderPrefixed("a/b");
    FolderPrefixed("a--b");
    DashedCons("a/b");
    DashedCons("a--b");
    assert "a/b"[1..] == "/b" && "a--b"[1..] == "--b";
    DashedCons("/b");
    DashedCons("--b");
    assert "/b"[1..] == "b" && "--b"[1..] == "-b";
    DashedCons("-b");
    assert "-b"[1..] == "b";
  }

  // ---- Spelled out ------------------------------------------------------------------

  predicate Word(c: char) {
    'A' <= c <= 'Z' || 'a' <= c <= 'z' || '0' <= c <= '9' || c == '_'
  }

  lemma {:induction false} OneSlash(s: string)
    ensures Slashes(s) == 0 <==> '/' !in s
    ensures Slashes(s) == 1 <==>
            exists i :: 0 <= i < |s| && s[i] == '/' && forall j :: 0 <= j < |s| && s[j] == '/' ==> j == i
  {
    if s != "" {
      var n := |s| - 1;
      var t := s[..n];
      OneSlash(t);
      assert forall i :: 0 <= i < n ==> s[i] == t[i];
      assert s == t + [s[n]];
      if s[n] == '/' {
        assert Slashes(t) == 0 ==> forall j :: 0 <= j < |s| && s[j] == '/' ==> j == n;
      }
    }
  }

  /** A letter, digit or underscore, or a slash, dot or dash between two of them. */
  predicate Fits(s: string, i: nat)
    requires i < |s|
  {
    Word(s[i]) || (s[i] in ['/', '.', '-'] && 0 < i < |s| - 1 && Word(s[i - 1]) && Word(s[i + 1]))
  }

  lemma AllFit(s: string)
    ensures Allowed(s) && Surrounded(s) <==> forall i :: 0 <= i < |s| ==> Fits(s, i)
  {
    if Allowed(s) && Surrounded(s) {
      forall i | 0 <= i < |s| ensures Fits(s, i) {
        assert IsBase(s[i]) || IsSpecial(s[i]);
      }
    }
    if forall i :: 0 <= i < |s| ==> Fits(s, i) {
      forall i | 0 <= i < |s| ensures IsBase(s[i]) || IsSpecial(s[i]) {
        assert Fits(s, i);
      }
      forall i | 0 <= i < |s| && IsSpecial(s[i])
        ensures 0 < i < |s| - 1 && IsBase(s[i - 1]) && IsBase(s[i + 1])
      {
        assert Fits(s, i);
      }
    }
  }

  /** Up to 256 such characters with exactly one slash. */
  lemma ValidIdExactly(s: string)
    ensures ValidRepoId(s) <==>
            && 1 <= |s| <= 256
            && (forall i :: 0 <= i < |s| ==> Fits(s, i))
            && (exists i :: 0 <= i < |s| && s[i] == '/' && forall j :: 0 <= j < |s| && s[j] == '/' ==> j == i)
  {
    hide Fits, Allowed, Surrounded, Slashes;
    OneSlash(s);
    AllFit(s);
  }

  lemma {:induction false} NoSlashKept(s: string)
    requires '/' !in s
    ensures Dashed(s) == s
  {
    if s != "" {
      hide Dashed;
      DashedCons(s);
      NoSlashKept(s[1..]);
    } else {
      NothingDashed();
    }
  }

  lemma {:induction false} DashedAppend(a: string, b: string)
    ensures Dashed(a + b) == Dashed(a) + Dashed(b)
    decreases |a|
  {
    hide Dashed;
    if a == "" {
      NothingDashed();
      assert a + b == b;
    } else {
      DashedCons(a);
      DashedCons(a + b);
      assert (a + b)[1..] == a[1..] + b;
      DashedAppend(a[1..], b);
    }
  }

  /** The folder of `owner/name`. */
  lemma FolderSpelled(owner: string, name: string)
    requires '/' !in owner && '/' !in name
    ensures FolderOf(owner + "/" + name) == "models--" + owner + "--" + name
  {
    hide Dashed;
    FolderPrefixed(owner + "/" + name);
    DashedAppend(owner + "/", name);
    DashedAppend(owner, "/");
    NoSlashKept(owner);
    NoSlashKept(name);
    DashedCons("/");
    NothingDashed();
    assert "/"[1..] == "";
  }

  /** No other folder belongs to a repository. */
  lemma OtherFolders(folder: string)
    requires !("models--" <= folder)
    ensures RepoOf(folder) == ""
  {
  }
}
