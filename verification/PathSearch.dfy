/** The search that execlp makes along PATH. */
module PathSearch {
  import opened Wrappers
  import opened Splitting

  const EACCES := 13
  const ENOEXEC := 8

  /** What execve answers; it does not return if it succeeds. */
  datatype ExecResult = Started | Failed(errno: int)

  /** What the system answers: to execve for a pathname, and to the shell called for a script. Both may
      depend on the attempt, so that the same pathname may be answered differently the next time. */
  datatype Answers = Answers(exec: (nat, string) -> ExecResult, shell: nat -> bool)

  /** How the whole call ends; `tried` are the pathnames given to execve, in order. */
  datatype Outcome =
    | Replaced(tried: seq<string>)
    | ShellRuns(tried: seq<string>)
    | Returns(tried: seq<string>, errno: int)

  // ----- the search -----

  /** An empty field means the current directory. */
  function PathnameFor(field: string, filename: string): string {
    (if field == "" then "." else field) + "/" + filename
  }

  function Candidates(fields: seq<string>, filename: string): seq<string> {
    if fields == [] then [] else [PathnameFor(fields[0], filename)] + Candidates(fields[1..], filename)
  }

  /** Does the call end with attempt `i`, the one for pathname `p`? It does if execve starts the program, and if
      execve fails with ENOEXEC (8) and the shell runs it. */
  predicate Stops(sys: Answers, i: nat, p: string) {
    sys.exec(i, p).Started? || (sys.exec(i, p).errno == 8 && sys.shell(i))
  }

  /** The attempt `i` failed, and the search goes on. */
  predicate Fails(sys: Answers, tried: seq<string>, i: int) {
    0 <= i < |tried| && sys.exec(i, tried[i]).Failed? && !Stops(sys, i, tried[i])
  }

  predicate Denied(sys: Answers, tried: seq<string>, i: int) {
    0 <= i < |tried| && sys.exec(i, tried[i]) == Failed(13)
  }

  /** EACCES (13) if any attempt gave it, otherwise the error of the last attempt. */
  ghost predicate FinalErrno(sys: Answers, tried: seq<string>, errno: int) {
    if exists i :: 0 <= i < |tried| && Denied(sys, tried, i) then errno == 13
    else tried != [] && sys.exec(|tried| - 1, tried[|tried| - 1]) == Failed(errno)
  }

  /** Candidates are tried in order until one starts, or is handed to the shell, or none is left. */
  ghost predicate SearchEnds(candidates: seq<string>, sys: Answers, out: Outcome) {
    && out.tried <= candidates && out.tried != []
    && (forall i | 0 <= i < |out.tried| - 1 :: Fails(sys, out.tried, i))
    && var n := |out.tried| - 1;
       match out
       case Replaced(tried) => sys.exec(n, tried[n]).Started?
       case ShellRuns(tried) => sys.exec(n, tried[n]) == Failed(8) && sys.shell(n)
       case Returns(tried, errno) =>
         tried == candidates && Fails(sys, tried, n) && FinalErrno(sys, tried, errno)
  }

  /** Builds one pathname; with its terminator it exactly fills the memory computed for it. */
  method BuildPathname(path: string, prStart: nat, prEnd: nat, filename: string)
    returns (pathname: string, ghost size: nat)
    requires prStart <= prEnd <= |path|
    ensures pathname == PathnameFor(path[prStart..prEnd], filename)
    ensures prStart < prEnd ==> pathname == path[prStart..prEnd] + "/" + filename
    ensures prStart == prEnd ==> pathname == "./" + filename
    ensures size == (if prEnd - prStart > 1 then prEnd - prStart else 1) + |filename| + 2
    ensures |pathname| + 1 == size
  {
    size := (if prEnd - prStart > 1 then prEnd - prStart else 1) + |filename| + 2;
    pathname := "";
    if prEnd == prStart {
      pathname := pathname + ".";
    } else {
      pathname := pathname + path[prStart..prEnd];
    }
    pathname := pathname + "/";
    pathname := pathname + filename;
  }

  /** Takes the next prefix from PATH: its pathname, where the one after it starts, and whether there is one. */
  method NextPathname(path: string, prStart: nat, filename: string, ghost rest: seq<string>)
    returns (pathname: string, next: nat, more: bool)
    requires Remaining(path, prStart, true, filename, rest)
    ensures rest != [] && pathname == rest[0] && Remaining(path, next, more, filename, rest[1..])
    ensures more ==> prStart < next
  {
    var prEnd := SeparatorFrom(path, ':', prStart);
    ghost var size;
    pathname, size := BuildPathname(path, prStart, prEnd, filename);
    next, more := if prEnd == |path| then prStart else prEnd + 1, prEnd < |path|;
    FirstCandidate(path, prStart, prEnd, filename, Fields(path, ':', prStart), rest);
  }

  /** The loop over the prefixes of a nonempty PATH. */
  method SearchPath(path: string, filename: string, sys: Answers) returns (out: Outcome)
    ensures SearchEnds(Candidates(Fields(path, ':', 0), filename), sys, out)
  {
    var prStart, morePrefixes, foundEACCES, savedErrno := 0, true, false, 0;
    var tried := [];
    ghost var all := Candidates(Fields(path, ':', 0), filename);
    ghost var rest := all;
    while morePrefixes
      invariant all == tried + rest && Remaining(path, prStart, morePrefixes, filename, rest)
      invariant morePrefixes || tried != []
      invariant AllFailed(sys, tried, foundEACCES, savedErrno)
      decreases morePrefixes, |path| - prStart
    {
      var pathname;
      pathname, prStart, morePrefixes := NextPathname(path, prStart, filename, rest);
      NextCandidate(tried, rest);
      OneMoreTry(sys, tried, rest, foundEACCES, savedErrno);
      var r, shell := sys.exec(|tried|, pathname), sys.shell(|tried|);
      tried, rest := tried + [pathname], rest[1..];
      if r.Started? || (r.errno == ENOEXEC && shell) {
        out := if r.Started? then Replaced(tried) else ShellRuns(tried);
        return;
      }
      savedErrno, foundEACCES := r.errno, foundEACCES || r.errno == EACCES;
    }
    assert tried == all;
    out := Returns(tried, if foundEACCES then EACCES else savedErrno);
  }

  /** The rule leaves nothing open. */
  lemma OneOutcome(candidates: seq<string>, sys: Answers, a: Outcome, b: Outcome)
    requires SearchEnds(candidates, sys, a) && SearchEnds(candidates, sys, b)
    ensures a == b
  {
    assert forall i | 0 <= i < |a.tried| && i < |b.tried| :: a.tried[i] == candidates[i] == b.tried[i];
    var m, n := |a.tried| - 1, |b.tried| - 1;
    assert m < n ==> Fails(sys, b.tried, m);
    assert n < m ==> Fails(sys, a.tried, n);
    assert a.tried == candidates[..|a.tried|] && b.tried == candidates[..|b.tried|];
  }

  lemma NextCandidate(tried: seq<string>, rest: seq<string>)
    requires rest != []
    ensures tried + rest == tried + [rest[0]] + rest[1..]
  {
    assert rest == [rest[0]] + rest[1..];
  }

  /** Every attempt so far has failed; the two variables say how. */
  ghost predicate AllFailed(sys: Answers, tried: seq<string>, foundEACCES: bool, savedErrno: int) {
    && (forall i | 0 <= i < |tried| :: Fails(sys, tried, i))
    && (foundEACCES <==> exists i :: 0 <= i < |tried| && Denied(sys, tried, i))
    && (tried != [] ==> sys.exec(|tried| - 1, tried[|tried| - 1]) == Failed(savedErrno))
  }

  /** One more attempt: the search ends with it, or it has failed like the others. */
  lemma OneMoreTry(sys: Answers, tried: seq<string>, rest: seq<string>, foundEACCES: bool, savedErrno: int)
    requires AllFailed(sys, tried, foundEACCES, savedErrno) && rest != []
    ensures var n, r, more := |tried|, sys.exec(|tried|, rest[0]), tried + [rest[0]];
            && (r.Started? ==> SearchEnds(tried + rest, sys, Replaced(more)))
            && (r == Failed(ENOEXEC) && sys.shell(n) ==> SearchEnds(tried + rest, sys, ShellRuns(more)))
            && (!Stops(sys, n, rest[0]) ==> AllFailed(sys, more, foundEACCES || r.errno == EACCES, r.errno))
  {
    var p := rest[0];
    var more := tried + [p];
    assert more <= tried + rest;
    assert forall i | 0 <= i < |tried| :: Fails(sys, tried, i) && more[i] == tried[i];
    assert forall i | 0 <= i < |tried| :: Fails(sys, more, i);
    assert forall i | 0 <= i < |tried| :: Denied(sys, more, i) <==> Denied(sys, tried, i);
    assert Denied(sys, more, |tried|) <==> sys.exec(|tried|, p) == Failed(EACCES);
  }

  /** The candidates still to be tried. */
  ghost predicate Remaining(path: string, prStart: nat, more: bool, filename: string, rest: seq<string>) {
    prStart <= |path| && rest == if more then Candidates(Fields(path, ':', prStart), filename) else []
  }

  lemma FirstCandidate(path: string, i: nat, j: nat, filename: string, fields: seq<string>, rest: seq<string>)
    requires i <= j <= |path| && j == SeparatorFrom(path, ':', i) && fields == Fields(path, ':', i)
    requires rest == Candidates(fields, filename)
    ensures rest != [] && rest[0] == PathnameFor(path[i..j], filename)
    ensures Remaining(path, if j == |path| then i else j + 1, j < |path|, filename, rest[1..])
  {
    FirstField(path, ':', i, fields);
    CandidatesCons(fields, filename, rest);
  }

  lemma CandidatesCons(fields: seq<string>, filename: string, rest: seq<string>)
    requires fields != [] && rest == Candidates(fields, filename)
    ensures rest != [] && rest[0] == PathnameFor(fields[0], filename) && rest[1..] == Candidates(fields[1..], filename)
  {
  }

  /** The pathnames to try: a filename with a slash is tried as it is, and an unset or empty PATH counts as ".". */
  function AllCandidates(filename: string, pathVar: Option<string>): seq<string> {
    if '/' in filename then [filename]
    else Candidates(Fields(if pathVar == None || pathVar == Some("") then "." else pathVar.value, ':', 0), filename)
  }

  /** One candidate per field: the field, or "." if it is empty, a slash and the filename. */
  lemma {:induction false} CandidatesAre(fields: seq<string>, filename: string)
    ensures |Candidates(fields, filename)| == |fields|
    ensures forall i | 0 <= i < |fields| ::
              Candidates(fields, filename)[i] == (if fields[i] == "" then "./" else fields[i] + "/") + filename
    decreases |fields|
  {
    if fields != [] {
      CandidatesAre(fields[1..], filename);
      assert "." + "/" == "./";
    }
  }

  lemma CurrentDirectory(filename: string)
    ensures Candidates(Fields(".", ':', 0), filename) == ["./" + filename]
  {
    FieldsStep(".", ':', 0);
    assert "."[0..] == ".";
    CandidatesAre(["."], filename);
    assert "." + "/" == "./";
  }

  /** The whole decision. */
  method Execlp(filename: string, pathVar: Option<string>, sys: Answers) returns (out: Outcome)
    ensures SearchEnds(AllCandidates(filename, pathVar), sys, out)
    ensures '/' in filename ==> SearchEnds([filename], sys, out)
    ensures '/' !in filename && (pathVar == None || pathVar == Some("")) ==> SearchEnds(["./" + filename], sys, out)
    ensures '/' !in filename && pathVar.Some? && pathVar.value != "" ==>
              SearchEnds(Candidates(Fields(pathVar.value, ':', 0), filename), sys, out)
  {
    CurrentDirectory(filename);
    if '/' in filename {
      var r := sys.exec(0, filename);
      if r.Started? {
        return Replaced([filename]);
      }
      if r.errno == ENOEXEC && sys.shell(0) {
        return ShellRuns([filename]);
      }
      assert Denied(sys, [filename], 0) <==> r.errno == EACCES;
      return Returns([filename], r.errno);
    }
    var path := if pathVar.None? || |pathVar.value| == 0 then "." else pathVar.value;
    out := SearchPath(path, filename, sys);
  }
}
