/**
 Start-up: the six required settings are read from the process environment,
 checked in their declared order, and only when all are present is the
 inference pipeline initialised with them.
 */
module Startup {

  datatype Option<T> = None | Some(value: T)

  /** The outcome of the required-settings check. */
  datatype Validation = Ok | Err(name: string)

  /** The settings the inference pipeline is initialised with. */
  datatype PipelineSettings = PipelineSettings(
    apiKey: string,
    workspaceName: string,
    workflowId: string,
    videoReference: string,
    maxFps: real)

  /** Start-up either stops with a configuration error or initialises the pipeline. */
  datatype LaunchOutcome = ConfigError(missing: string) | PipelineInitialised(settings: PipelineSettings)

  /** The frame-rate cap the pipeline is initialised with. */
  const MaxFps: real := 0.2

  /** The required settings, in the order they are checked. */
  const RequiredNames: seq<string> :=
    ["VIDEO_FEED", "API_KEY", "WORKSPACE_NAME", "WORKFLOW_ID", "ACCESS_TOKEN", "HOME_ASSISTANT_URL"]

  /** Reading one variable of the environment: its value, or None when unset. */
  function Lookup(environ: map<string, string>, name: string): Option<string>
  {
    if name in environ then Some(environ[name]) else None
  }

  /** A setting counts as missing when it is unset or empty (Python's `not value`). */
  predicate Missing(value: Option<string>)
  {
    value.None? || value.value == ""
  }

  /** A variable that is set to a non-empty value. */
  predicate Present(environ: map<string, string>, name: string)
  {
    name in environ && environ[name] != ""
  }

  /** Entry k is missing and every entry before it is present. */
  predicate FirstMissing(vars: seq<(string, Option<string>)>, k: nat)
  {
    k < |vars| && Missing(vars[k].1) && forall j :: 0 <= j < k ==> !Missing(vars[j].1)
  }

  /** The table of required settings, name paired with what the environment holds. */
  function RequiredVars(environ: map<string, string>): (vars: seq<(string, Option<string>)>)
    ensures |vars| == |RequiredNames|
    ensures forall i :: 0 <= i < |vars| ==>
      vars[i].0 == RequiredNames[i] && (Missing(vars[i].1) <==> !Present(environ, RequiredNames[i]))
  {
    seq(|RequiredNames|, i requires 0 <= i < |RequiredNames| => (RequiredNames[i], Lookup(environ, RequiredNames[i])))
  }

  /**
   Scans the settings in order and stops at the first missing one, reporting
   its name; succeeds only when none is missing.
   */
  method ValidateRequired(vars: seq<(string, Option<string>)>) returns (r: Validation)
    ensures r.Ok? <==> forall i :: 0 <= i < |vars| ==> !Missing(vars[i].1)
    ensures r.Err? ==> exists k: nat :: FirstMissing(vars, k) && r.name == vars[k].0
  {
    for i := 0 to |vars|
      invariant forall j :: 0 <= j < i ==> !Missing(vars[j].1)
    {
      var (name, value) := vars[i];
      if Missing(value) {
        assert FirstMissing(vars, i);
        return Err(name);
      }
    }
    return Ok;
  }

  /**
   Start-up up to pipeline initialisation: a missing setting stops it with
   that setting's name before any pipeline exists; otherwise the pipeline is
   initialised from the environment's values.
   */
  method Launch(environ: map<string, string>) returns (outcome: LaunchOutcome)
    ensures outcome.PipelineInitialised? <==> forall name :: name in RequiredNames ==> Present(environ, name)
    ensures outcome.ConfigError? ==>
      exists k :: 0 <= k < |RequiredNames| && RequiredNames[k] == outcome.missing
        && !Present(environ, RequiredNames[k])
        && forall j :: 0 <= j < k ==> Present(environ, RequiredNames[j])
    ensures outcome.PipelineInitialised? ==>
      && Present(environ, "API_KEY") && outcome.settings.apiKey == environ["API_KEY"]
      && Present(environ, "WORKSPACE_NAME") && outcome.settings.workspaceName == environ["WORKSPACE_NAME"]
      && Present(environ, "WORKFLOW_ID") && outcome.settings.workflowId == environ["WORKFLOW_ID"]
      && Present(environ, "VIDEO_FEED") && outcome.settings.videoReference == environ["VIDEO_FEED"]
      && outcome.settings.maxFps == MaxFps
  {
    var vars := RequiredVars(environ);
    var check := ValidateRequired(vars);
    if check.Err? {
      var k: nat :| FirstMissing(vars, k) && check.name == vars[k].0;
      assert !Present(environ, RequiredNames[k]);
      return ConfigError(check.name);
    }
    assert Present(environ, RequiredNames[0]) && Present(environ, RequiredNames[1]);
    assert Present(environ, RequiredNames[2]) && Present(environ, RequiredNames[3]);
    outcome := PipelineInitialised(PipelineSettings(
      environ["API_KEY"], environ["WORKSPACE_NAME"], environ["WORKFLOW_ID"], environ["VIDEO_FEED"], MaxFps));
  }

  /** A caller's view of start-up, derived from the contracts alone. */
  method LaunchExamples()
  {
    var complete := map["VIDEO_FEED" := "rtsp://cam", "API_KEY" := "k", "WORKSPACE_NAME" := "w",
                        "WORKFLOW_ID" := "f", "ACCESS_TOKEN" := "t", "HOME_ASSISTANT_URL" := "http://ha"];
    var outcome := Launch(complete);
    assert outcome.PipelineInitialised? && outcome.settings.apiKey == "k";

    var partial := complete["API_KEY" := ""]["ACCESS_TOKEN" := ""];
    outcome := Launch(partial);
    assert Present(partial, RequiredNames[0]) && !Present(partial, RequiredNames[1]);
    assert outcome == ConfigError("API_KEY");

    outcome := Launch(map[]);
    assert !Present(map[], RequiredNames[0]);
    assert outcome == ConfigError("VIDEO_FEED");
  }
}
