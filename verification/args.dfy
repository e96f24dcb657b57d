/** Command-line argument handling (src/main.rs `split_repo`): an
    `owner/project` argument split into its two names. */
module Args {
  import opened Wrappers

  /** Position of the first `c` in `s`, if any. */
  function IndexOf(s: string, c: char): (r: Option<nat>)
    ensures r.None? <==> c !in s
    ensures r.Some? ==> r.value < |s| && s[r.value] == c && c !in s[..r.value]
  {
    if |s| == 0 then None
    else if s[0] == c then Some(0)
    else
      match IndexOf(s[1..], c)
      case None => None
      case Some(i) =>
        assert s[..i + 1] == [s[0]] + s[1..][..i];
        Some(i + 1)
  }

  /** `owner` is the text of `repo` before its first `/` and `project` the
      text from there up to the next `/` or the end. */
  ghost predicate SplitsAt(repo: string, owner: string, project: string)
  {
    && '/' !in owner && '/' !in project
    && |owner| < |repo| && repo[..|owner|] == owner && repo[|owner|] == '/'
    && var after := repo[|owner| + 1..];
       && |project| <= |after| && after[..|project|] == project
       && (|project| == |after| || after[|project|] == '/')
  }

  /** `split_repo`: the text before the first `/` and the text between it
      and the next `/` (or the end). Without a `/` the argument itself is
      the error message. */
  function SplitRepo(repo: string): (r: Result<(string, string), string>)
    ensures r.Failure? <==> '/' !in repo
    ensures r.Failure? ==> r.error == repo
    ensures r.Success? ==> SplitsAt(repo, r.value.0, r.value.1)
  {
    match IndexOf(repo, '/')
    case None => Failure(repo)
    case Some(i) =>
      var owner := repo[..i];
      var after := repo[i + 1..];
      match IndexOf(after, '/')
      case None => Success((owner, after))
      case Some(j) => Success((owner, after[..j]))
  }

  /** A string splits at its first `/` in one way only. */
  lemma SplitsAtUnique(repo: string, o: string, p: string, owner: string, project: string, rest: string)
    requires SplitsAt(repo, o, p)
    requires '/' !in owner && '/' !in project
    requires rest == [] || rest[0] == '/'
    requires repo == owner + "/" + project + rest
    ensures o == owner && p == project
  {
    assert o == owner by {
      assert repo == o + repo[|o|..];
      assert repo == owner + ("/" + project + rest);
      NoSlashPrefix(o, owner, repo[|o|..], "/" + project + rest);
    }
    var after := repo[|o| + 1..];
    assert after == project + rest;
    assert after == p + after[|p|..];
    NoSlashPrefix(p, project, after[|p|..], rest);
  }

  /** Joining two names without `/` and splitting again gives them back;
      anything from a second `/` on is ignored. */
  lemma SplitRepoRoundTrip(owner: string, project: string, rest: string)
    requires '/' !in owner && '/' !in project
    requires rest == [] || rest[0] == '/'
    ensures SplitRepo(owner + "/" + project + rest) == Success((owner, project))
  {
    var repo := owner + "/" + project + rest;
    assert repo[|owner|] == '/';
    var r := SplitRepo(repo);
    SplitsAtUnique(repo, r.value.0, r.value.1, owner, project, rest);
  }

  /** Two ways to split a string at its first `/`: the parts before it agree. */
  lemma {:induction false} NoSlashPrefix(a: string, b: string, x: string, y: string)
    requires '/' !in a && '/' !in b
    requires x == [] || x[0] == '/'
    requires y == [] || y[0] == '/'
    requires a + x == b + y
    ensures a == b && x == y
    decreases |a|
  {
    if |a| > 0 && |b| > 0 {
      assert a[0] == (a + x)[0] == (b + y)[0] == b[0];
      assert a[1..] + x == (a + x)[1..] == (b + y)[1..] == b[1..] + y;
      NoSlashPrefix(a[1..], b[1..], x, y);
      assert a == [a[0]] + a[1..];
      assert b == [b[0]] + b[1..];
    } else if |a| == 0 {
      assert x == b + y;
    } else {
      assert y == a + x;
    }
  }

  lemma OwnerProjectExample()
    ensures SplitRepo("fosskers/credit") == Success(("fosskers", "credit"))
  {
    assert "fosskers" + "/" + "credit" + "" == "fosskers/credit";
    SplitRepoRoundTrip("fosskers", "credit", "");
  }

  lemma ThirdPartIgnoredExample()
    ensures SplitRepo("a/b/c") == Success(("a", "b"))
  {
    assert "a" + "/" + "b" + "/c" == "a/b/c";
    SplitRepoRoundTrip("a", "b", "/c");
  }

  lemma EmptyProjectExample()
    ensures SplitRepo("owner/") == Success(("owner", ""))
  {
    assert "owner" + "/" + "" + "" == "owner/";
    SplitRepoRoundTrip("owner", "", "");
  }

  lemma NoSlashExample()
    ensures SplitRepo("credit") == Failure("credit")
  {
  }
}
