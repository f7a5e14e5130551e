/** `ReadCommitPipeline`: turns a stream of commit ids into a stream of fetch requests
    for one project directory. */
module ReadCommitPipeline {
  import opened Actions

  /** A request to read the details of one commit of the repository at `gitDir`. The
      directory, a `Path` in the program, is kept as its text. */
  datatype FetchCommit = FetchCommit(gitDir: string, commit: string)

  /** The fetch request for each commit id, in order. */
  function Fetches(projectDirectory: string, commits: seq<string>): (r: seq<FetchCommit>)
    ensures |r| == |commits|
    ensures forall i | 0 <= i < |commits| :: r[i] == FetchCommit(projectDirectory, commits[i])
  {
    if commits == [] then []
    else
      Fetches(projectDirectory, commits[..|commits| - 1])
      + [FetchCommit(projectDirectory, commits[|commits| - 1])]
  }

  /** `run`: each `Value(c)` taken becomes `Value(FetchCommit(projectDirectory, c))`; on
      `Stop`, one `Stop` is put and nothing more is taken. */
  method Run(projectDirectory: string, source: seq<Action<string>>)
    returns (target: seq<Action<FetchCommit>>, taken: nat)
    requires HasStop(source)
    ensures taken == StopIndex(source) + 1
    ensures target == Wrap(Fetches(projectDirectory, Values(source[..StopIndex(source)]))) + [Stop]
  {
    target := [];
    var i := 0;
    assert source[..0] == [];
    while source[i].Value?
      invariant 0 <= i <= StopIndex(source)
      invariant target == Wrap(Fetches(projectDirectory, Values(source[..i])))
      decreases StopIndex(source) - i
    {
      var commit := source[i].value;
      FetchesSnoc(projectDirectory, source, i);
      target := target + [Value(FetchCommit(projectDirectory, commit))];
      i := i + 1;
    }
    target := target + [Stop];
    taken := i + 1;
  }

  /** One more commit taken puts one more request. */
  lemma FetchesSnoc(projectDirectory: string, source: seq<Action<string>>, i: nat)
    requires i < |source| && source[i].Value?
    ensures Wrap(Fetches(projectDirectory, Values(source[..i + 1])))
      == Wrap(Fetches(projectDirectory, Values(source[..i]))) + [Value(FetchCommit(projectDirectory, source[i].value))]
  {
    ValuesSnoc(source, i);
    var cs := Values(source[..i]);
    var commit := source[i].value;
    assert Values(source[..i + 1]) == cs + [commit];
    assert (cs + [commit])[..|cs|] == cs;
    var fs := Fetches(projectDirectory, cs);
    assert Fetches(projectDirectory, cs + [commit]) == fs + [FetchCommit(projectDirectory, commit)];
    WrapAppend(fs, [FetchCommit(projectDirectory, commit)]);
  }

  /** The output carries one request per commit taken before `Stop`, for that commit and
      in the same order, and exactly one `Stop`, as its last action. */
  lemma OutputMatchesInput(projectDirectory: string, source: seq<Action<string>>)
    requires HasStop(source)
    ensures var out := Wrap(Fetches(projectDirectory, Values(source[..StopIndex(source)]))) + [Stop];
      |Values(out)| == StopIndex(source)
      && (forall i | 0 <= i < StopIndex(source) ::
            Values(out)[i] == FetchCommit(projectDirectory, source[i].value))
      && StopCount(out) == 1 && out[|out| - 1] == Stop
  {
    var k := StopIndex(source);
    ValuesBeforeStop(source);
    WrapThenStop(Fetches(projectDirectory, Values(source[..k])));
  }
}
