/** The generate-then-execute driver `run_pipeline`: one design-plan request,
    then up to MAX_RETRIES rounds of generate, sanitise, overwrite, run. The
    text-generation service and the Python interpreter are oracles whose
    answers are fixed in advance. */
module Pipeline {
  import Sanitiser
  import Prompts

  const MAX_RETRIES: nat := 3

  /** One call to the text-generation service: system prompt and user prompt. */
  datatype Request = Request(system: string, user: string)

  /** The script file every attempt overwrites. */
  function CodePath(imgName: string): (path: string)
    ensures |path| == |imgName| + 29
    ensures path[..26] == "generated_code/chart_code_"
    ensures path[26..26 + |imgName|] == imgName
    ensures path[26 + |imgName|..] == ".py"
  {
    "generated_code/chart_code_" + imgName + ".py"
  }

  /** Attempts made when attempt `k + 1` (counting from 1) is about to run and
      the interpreter answers `exits` from the first attempt on. */
  function AttemptsFrom(exits: seq<int>, k: nat): (n: nat)
    requires k < MAX_RETRIES <= |exits|
    ensures k < n <= MAX_RETRIES
    ensures exits[n - 1] == 0 || n == MAX_RETRIES
    decreases MAX_RETRIES - k
  {
    if exits[k] == 0 || k + 1 == MAX_RETRIES then k + 1 else AttemptsFrom(exits, k + 1)
  }

  /** Number of attempts the retry loop makes for the given exit statuses. */
  function Attempts(exits: seq<int>): (n: nat)
    requires MAX_RETRIES <= |exits|
    ensures 1 <= n <= MAX_RETRIES
  {
    AttemptsFrom(exits, 0)
  }

  /** Some attempt the loop could make exits with status 0. */
  predicate Succeeds(exits: seq<int>)
    requires MAX_RETRIES <= |exits|
  {
    exists k :: 0 <= k < MAX_RETRIES && exits[k] == 0
  }

  lemma {:induction false} AttemptsFromFacts(exits: seq<int>, k: nat)
    requires k < MAX_RETRIES <= |exits|
    ensures var n := AttemptsFrom(exits, k);
      && k < n <= MAX_RETRIES
      && (forall j :: k <= j < n - 1 ==> exits[j] != 0)
      && (exits[n - 1] == 0 || n == MAX_RETRIES)
    decreases MAX_RETRIES - k
  {
    if !(exits[k] == 0 || k + 1 == MAX_RETRIES) {
      AttemptsFromFacts(exits, k + 1);
    }
  }

  /** The loop makes between one and MAX_RETRIES attempts, every attempt but
      the last fails, and the last one succeeds unless the budget ran out. */
  lemma AttemptsFacts(exits: seq<int>)
    requires MAX_RETRIES <= |exits|
    ensures var n := Attempts(exits);
      && 1 <= n <= MAX_RETRIES
      && (forall j :: 0 <= j < n - 1 ==> exits[j] != 0)
      && (exits[n - 1] == 0 || n == MAX_RETRIES)
  {
    AttemptsFromFacts(exits, 0);
  }

  /** Those facts pin the count down: the loop stops right after the first
      success, and only then or when the budget is spent. */
  lemma AttemptsUnique(exits: seq<int>, m: nat)
    requires MAX_RETRIES <= |exits|
    requires 1 <= m <= MAX_RETRIES
    requires forall j :: 0 <= j < m - 1 ==> exits[j] != 0
    requires exits[m - 1] == 0 || m == MAX_RETRIES
    ensures Attempts(exits) == m
  {
    AttemptsFacts(exits);
  }

  /** The run succeeded exactly when its last attempt exited with 0, and a
      run that never succeeds spends all MAX_RETRIES attempts. */
  lemma SuccessIsLastAttempt(exits: seq<int>)
    requires MAX_RETRIES <= |exits|
    ensures Succeeds(exits) <==> exits[Attempts(exits) - 1] == 0
    ensures !Succeeds(exits) ==> Attempts(exits) == MAX_RETRIES
  {
    AttemptsFacts(exits);
  }

  /** `x` repeated `n` times. */
  function Repeat<T>(x: T, n: nat): (r: seq<T>)
    ensures |r| == n && forall j :: 0 <= j < n ==> r[j] == x
  {
    if n == 0 then [] else Repeat(x, n - 1) + [x]
  }

  /** `codes[j]` is the sanitised form of `raws[j]`, for every `j`. */
  ghost predicate CleanedFrom(codes: seq<string>, raws: seq<string>, imgName: string) {
    |codes| == |raws|
    && forall j {:trigger Sanitiser.CleanCodeResponse(raws[j], imgName)} :: 0 <= j < |codes| ==>
         codes[j] == Sanitiser.CleanCodeResponse(raws[j], imgName)
  }

  /** Extending the codes by the sanitised next reply. */
  lemma CleanedSnoc(codes: seq<string>, raws: seq<string>, code: string, imgName: string)
    requires |codes| < |raws| && CleanedFrom(codes, raws[..|codes|], imgName)
    requires CleanedFrom([code], raws[|codes|..][..1], imgName)
    ensures CleanedFrom(codes + [code], raws[..|codes| + 1], imgName)
  {
    var n := |codes|;
    assert raws[|codes|..][..1][0] == raws[n];
    forall j | 0 <= j < n + 1
      ensures (codes + [code])[j] == Sanitiser.CleanCodeResponse(raws[..n + 1][j], imgName)
    {
      if j < n {
        assert raws[..n + 1][j] == raws[..n][j];
      }
    }
  }

  lemma SliceOfSlice<T>(s: seq<T>, i: nat, n: nat)
    requires i + n <= |s|
    ensures s[i..][..n] == s[i..i + n] && s[i..][n..] == s[i + n..]
  {
  }

  /** The driver's world: files on disk, the service's pending replies, the
      interpreter's pending exit statuses, and ghost logs of what was asked. */
  class Driver {
    /** File contents by path. */
    var files: map<string, string>
    /** Replies the service will give, in order. */
    var replies: seq<string>
    /** Exit statuses the interpreter will return, in order. */
    var exits: seq<int>
    /** Every request sent to the service so far. */
    ghost var requests: seq<Request>
    /** The text of every script run so far. */
    ghost var runs: seq<string>

    constructor (files0: map<string, string>, replies0: seq<string>, exits0: seq<int>)
      ensures files == files0 && replies == replies0 && exits == exits0
      ensures requests == [] && runs == []
    {
      files, replies, exits := files0, replies0, exits0;
      requests, runs := [], [];
    }

    /** `call_gpt5mini` without an image: the service answers with its next reply. */
    method CallService(system: string, user: string) returns (reply: string)
      requires |replies| > 0
      modifies this
      ensures reply == old(replies)[0] && replies == old(replies)[1..]
      ensures requests == old(requests) + [Request(system, user)]
      ensures files == old(files) && exits == old(exits) && runs == old(runs)
    {
      reply := replies[0];
      replies := replies[1..];
      requests := requests + [Request(system, user)];
    }

    /** `design_plan_factor`: the service's answer to the design-plan prompt. */
    method DesignPlanFactor(systemPrompt: string, chartData: string, factor: int) returns (plan: string)
      requires |replies| > 0
      modifies this
      ensures plan == old(replies)[0] && replies == old(replies)[1..]
      ensures requests == old(requests) + [Request(systemPrompt, Prompts.DesignPlanPrompt(chartData, factor))]
      ensures files == old(files) && exits == old(exits) && runs == old(runs)
    {
      plan := CallService(systemPrompt, Prompts.DesignPlanPrompt(chartData, factor));
    }

    /** `generate_chart`: the service's answer to the chart prompt. */
    method GenerateChart(systemPrompt: string, designPlan: string, chartInfo: string) returns (code: string)
      requires |replies| > 0
      modifies this
      ensures code == old(replies)[0] && replies == old(replies)[1..]
      ensures requests == old(requests) + [Request(systemPrompt, Prompts.ChartPrompt(designPlan, chartInfo))]
      ensures files == old(files) && exits == old(exits) && runs == old(runs)
    {
      code := CallService(systemPrompt, Prompts.ChartPrompt(designPlan, chartInfo));
    }

    /** Opening `path` for writing and writing `text` replaces its contents. */
    method WriteFile(path: string, text: string)
      modifies this
      ensures files == old(files)[path := text]
      ensures replies == old(replies) && exits == old(exits)
      ensures requests == old(requests) && runs == old(runs)
    {
      files := files[path := text];
    }

    /** Running `python path`: the interpreter runs the file's current text
        and answers with its next exit status. */
    method RunScript(path: string) returns (status: int)
      requires path in files && |exits| > 0
      modifies this
      ensures status == old(exits)[0] && exits == old(exits)[1..]
      ensures runs == old(runs) + [old(files)[path]]
      ensures files == old(files) && replies == old(replies) && requests == old(requests)
    {
      status := exits[0];
      exits := exits[1..];
      runs := runs + [files[path]];
    }

    /** One iteration of the retry loop: ask for code, sanitise it, overwrite
        the script file with it and run it. */
    method Attempt(chartPrompt: string, designPlan: string, imageInfo: string, imgName: string)
      returns (status: int, codeResponse: string)
      requires |replies| > 0 && |exits| > 0
      modifies this
      ensures CleanedFrom([codeResponse], old(replies)[..1], imgName)
      ensures status == old(exits)[0] && exits == old(exits)[1..]
      ensures replies == old(replies)[1..]
      ensures requests == old(requests) + [Request(chartPrompt, Prompts.ChartPrompt(designPlan, imageInfo))]
      ensures files == old(files)[CodePath(imgName) := codeResponse]
      ensures runs == old(runs) + [codeResponse]
    {
      var codeResponseRaw := GenerateChart(chartPrompt, designPlan, imageInfo);
      codeResponse := Sanitiser.CleanCodeResponse(codeResponseRaw, imgName);
      var codeFile := CodePath(imgName);
      WriteFile(codeFile, codeResponse);
      status := RunScript(codeFile);
    }

    /** The retry loop of `run_pipeline`: each attempt asks for code with the
        same prompt, overwrites the same file with the sanitised reply and
        runs it, stopping after the first exit status 0 or after MAX_RETRIES
        attempts. `codes` is the code each attempt ran. */
    method RetryChart(chartPrompt: string, designPlan: string, imageInfo: string, imgName: string)
      returns (ghost codes: seq<string>)
      requires |replies| >= MAX_RETRIES && |exits| >= MAX_RETRIES
      modifies this
      ensures |codes| == Attempts(old(exits))
      ensures CleanedFrom(codes, old(replies)[..|codes|], imgName)
      ensures requests == old(requests) + Repeat(Request(chartPrompt, Prompts.ChartPrompt(designPlan, imageInfo)), |codes|)
      ensures runs == old(runs) + codes
      ensures files == old(files)[CodePath(imgName) := codes[|codes| - 1]]
      ensures replies == old(replies)[|codes|..] && exits == old(exits)[|codes|..]
    {
      ghost var replies0, exits0, requests0, runs0 := replies, exits, requests, runs;
      ghost var ask := Request(chartPrompt, Prompts.ChartPrompt(designPlan, imageInfo));
      ghost var path := CodePath(imgName);
      codes := [];
      for attempt := 1 to MAX_RETRIES + 1
        invariant |codes| == attempt - 1
        invariant |codes| < MAX_RETRIES ==> AttemptsFrom(exits0, |codes|) == Attempts(exits0)
        invariant |codes| == MAX_RETRIES ==> Attempts(exits0) == MAX_RETRIES
        invariant requests == requests0 + Repeat(ask, |codes|)
        invariant runs == runs0 + codes
        invariant CleanedFrom(codes, replies0[..|codes|], imgName)
        invariant |codes| == 0 ==> files == old(files)
        invariant |codes| > 0 ==> files == old(files)[path := codes[|codes| - 1]]
        invariant replies == replies0[|codes|..] && exits == exits0[|codes|..]
      {
        var status, codeResponse := Attempt(chartPrompt, designPlan, imageInfo, imgName);
        CleanedSnoc(codes, replies0, codeResponse, imgName);
        assert Repeat(ask, |codes| + 1) == Repeat(ask, |codes|) + [ask];
        codes := codes + [codeResponse];
        if status == 0 {
          return;
        }
      }
    }

    /** `run_pipeline`: the design plan is requested once, then the retry loop
        runs with that plan; nothing is reported either way. `codes` is the
        code each attempt ran. */
    method RunPipeline(designPrompt: string, chartPrompt: string, imageInfo: string, factor: int, imgName: string)
      returns (ghost codes: seq<string>)
      requires |replies| > MAX_RETRIES && |exits| >= MAX_RETRIES
      modifies this
      ensures |codes| == Attempts(old(exits))
      ensures CleanedFrom(codes, old(replies)[1..|codes| + 1], imgName)
      ensures requests == old(requests)
        + [Request(designPrompt, Prompts.DesignPlanPrompt(imageInfo, factor))]
        + Repeat(Request(chartPrompt, Prompts.ChartPrompt(old(replies)[0], imageInfo)), |codes|)
      ensures runs == old(runs) + codes
      ensures files == old(files)[CodePath(imgName) := codes[|codes| - 1]]
      ensures replies == old(replies)[|codes| + 1..] && exits == old(exits)[|codes|..]
    {
      ghost var replies0 := replies;
      var designPlan := DesignPlanFactor(designPrompt, imageInfo, factor);
      codes := RetryChart(chartPrompt, designPlan, imageInfo, imgName);
      AttemptsFacts(old(exits));
      SliceOfSlice(replies0, 1, |codes|);
    }
  }
}
