/** Which paths are the same (src/pkgnode.c:139-150): the components of a path against its text with
    runs of slashes collapsed.
  */
module PathForm {
  import opened PathTree

  /** Every slash that is followed by another one, or by nothing, is dropped. */
  function Squeezed(s: string): string {
    if s == "" then ""
    else if s[0] == '/' && (|s| == 1 || s[1] == '/') then Squeezed(s[1..])
    else [s[0]] + Squeezed(s[1..])
  }

  /** The first character always belongs to the first component and is kept. */
  function Normal(path: string): string
    requires path != ""
  {
    [path[0]] + Squeezed(path[1..])
  }

  function Joined(cs: seq<string>): string
    requires cs != []
  {
    if |cs| == 1 then cs[0] else cs[0] + "/" + Joined(cs[1..])
  }

  /** A component holds no slash, but the first may begin with one. */
  ghost predicate Components(cs: seq<string>) {
    && cs != []
    && (forall i :: 0 <= i < |cs| ==> cs[i] != "")
    && (forall i, j :: 0 <= i < |cs| && 0 <= j < |cs[i]| && (0 < i || 0 < j) ==> cs[i][j] != '/')
  }

  lemma {:induction false} SplitFromIsComponents(path: string, i: nat)
    requires i < |path|
    ensures Components(SplitFrom(path, i)) && SplitFrom(path, i)[0][0] == path[i]
    decreases |path| - i
  {
    hide SplitFrom, WordEnd, SlashEnd;
    var end := WordEnd(path, i + 1);
    var next := SlashEnd(path, end);
    SplitStep(path, i, end, next);
    if next < |path| {
      SplitFromIsComponents(path, next);
      var rest := SplitFrom(path, next);
      assert forall j :: 0 < j <= |rest| ==> SplitFrom(path, i)[j] == rest[j - 1];
    }
  }

  /** Splitting yields components: none is empty, and a slash can only be the very first character. */
  lemma {:induction false} SplitIsComponents(path: string)
    requires path != ""
    ensures Components(Split(path))
  {
    SplitFromIsComponents(path, 0);
  }

  /** Splitting inverts joining with single slashes. */
  lemma {:induction false} SplitJoined(cs: seq<string>)
    requires Components(cs)
    ensures Joined(cs) != "" && Joined(cs)[0] == cs[0][0] && Split(Joined(cs)) == cs
    decreases |cs|
  {
    hide SplitFrom, WordEnd, SlashEnd;
    var path, first := Joined(cs), cs[0];
    if |cs| == 1 {
      SplitStep(path, 0, |path|, |path|);
      assert path[0..|path|] == path;
    } else {
      var rest := cs[1..];
      SplitJoined(rest);
      assert path == (first + "/") + Joined(rest);
      assert rest[0] == cs[1];
      SplitStep(path, 0, |first|, |first| + 1);
      SplitShift(first + "/", Joined(rest), 0);
      assert path[0..|first|] == first;
      assert cs == [first] + rest;
    }
  }

  lemma {:induction false} SqueezeWord(path: string, i: nat, end: nat)
    requires i <= end <= |path| && forall j :: i <= j < end ==> path[j] != '/'
    ensures Squeezed(path[i..]) == path[i..end] + Squeezed(path[end..])
    decreases end - i
  {
    if i < end {
      SqueezeWord(path, i + 1, end);
      assert path[i..][1..] == path[i + 1..];
      assert path[i..end] == [path[i]] + path[i + 1..end];
    }
  }

  lemma {:induction false} SqueezeRun(path: string, end: nat, next: nat)
    requires end < next <= |path| && forall j :: end <= j < next ==> path[j] == '/'
    requires next == |path| || path[next] != '/'
    ensures Squeezed(path[end..]) == if next == |path| then "" else "/" + Squeezed(path[next..])
    decreases next - end
  {
    assert path[end..][1..] == path[end + 1..];
    if end + 1 < next {
      SqueezeRun(path, end + 1, next);
    }
  }

  /** Squeezing what follows the first character of a component: the rest of it, and the next ones
      behind a single slash. */
  lemma {:induction false} SqueezeComponent(path: string, i: nat, end: nat, next: nat)
    requires i < end <= next <= |path| && forall j :: i < j < end ==> path[j] != '/'
    requires (end == |path| || path[end] == '/') && (next == |path| || path[next] != '/')
    requires forall j :: end <= j < next ==> path[j] == '/'
    ensures Squeezed(path[i + 1..]) == path[i + 1..end] + if next == |path| then "" else "/" + Normal(path[next..])
  {
    SqueezeWord(path, i + 1, end);
    if end < |path| {
      SqueezeRun(path, end, next);
    }
  }

  lemma {:induction false} JoinedSplitFrom(path: string, i: nat)
    requires i < |path|
    ensures Joined(SplitFrom(path, i)) == [path[i]] + Squeezed(path[i + 1..])
    decreases |path| - i
  {
    hide SplitFrom, WordEnd, SlashEnd, Squeezed;
    var end := WordEnd(path, i + 1);
    var next := SlashEnd(path, end);
    SplitStep(path, i, end, next);
    SqueezeComponent(path, i, end, next);
    assert path[i..end] == [path[i]] + path[i + 1..end];
    if next < |path| {
      JoinedSplitFrom(path, next);
      assert SplitFrom(path, i)[1..] == SplitFrom(path, next);
      assert path[next..][1..] == path[next + 1..];
    }
  }

  /** Joining what splitting yields is the normal form of the path. */
  lemma {:induction false} JoinedSplit(path: string)
    requires path != ""
    ensures Joined(Split(path)) == Normal(path)
  {
    JoinedSplitFrom(path, 0);
  }

  /** Two paths lead to the same node exactly when they have the same normal form. */
  lemma {:induction false} SamePathExactly(a: string, b: string)
    requires a != "" && b != ""
    ensures Split(a) == Split(b) <==> Normal(a) == Normal(b)
  {
    JoinedSplit(a);
    JoinedSplit(b);
    SplitIsComponents(a);
    SplitIsComponents(b);
    SplitJoined(Split(a));
    SplitJoined(Split(b));
  }
}
