/**
  The configuration pre-check run before anything else: the three Crowdin
  environment variables must be set to non-empty strings.
 */
module Environment {
  import opened Wrappers

  const TokenName: string := "CROWDIN_PERSONAL_TOKEN"
  const ProjectIdName: string := "CROWDIN_PROJECT_ID"
  const BaseUrlName: string := "CROWDIN_BASE_URL"

  /** The variables in the order in which they are checked. */
  const Names: seq<string> := [TokenName, ProjectIdName, BaseUrlName]

  /** JavaScript truthiness of `process.env.X`: unset and "" are both falsy. */
  predicate Present(value: Option<string>) {
    value.Some? && value.value != ""
  }

  function MissingMessage(name: string): string {
    "Missing environment variable: " + name
  }

  /** Index of the first value that is not present, if any. */
  function FirstMissing(values: seq<Option<string>>): (r: Option<nat>)
    ensures r.Some? ==> r.value < |values| && !Present(values[r.value])
    ensures r.Some? ==> forall k :: 0 <= k < r.value ==> Present(values[k])
    ensures r.None? <==> forall k :: 0 <= k < |values| ==> Present(values[k])
  {
    if |values| == 0 then None
    else if !Present(values[0]) then Some(0)
    else match FirstMissing(values[1..])
      case None => None
      case Some(k) => Some(k + 1)
  }

  /**
    The guard sequence of the pre-check: each variable in turn; the first one
    that is unset or empty is reported, and only that one.
   */
  function CheckEnvironmentVariables(token: Option<string>, projectId: Option<string>, baseUrl: Option<string>): (r: Outcome<string>)
    ensures r.Pass? <==> Present(token) && Present(projectId) && Present(baseUrl)
    ensures r.Fail? ==> r.error in {MissingMessage(TokenName), MissingMessage(ProjectIdName), MissingMessage(BaseUrlName)}
  {
    if !Present(token) then Fail(MissingMessage(TokenName))
    else if !Present(projectId) then Fail(MissingMessage(ProjectIdName))
    else if !Present(baseUrl) then Fail(MissingMessage(BaseUrlName))
    else Pass
  }

  /**
    The pre-check agrees with the reference search: it passes exactly when no
    variable is missing, and otherwise reports the first missing one.
   */
  lemma {:induction false} CheckReportsFirstMissing(token: Option<string>, projectId: Option<string>, baseUrl: Option<string>)
    ensures CheckEnvironmentVariables(token, projectId, baseUrl) ==
              match FirstMissing([token, projectId, baseUrl])
              case None => Pass
              case Some(k) => Fail(MissingMessage(Names[k]))
  {
    var values := [token, projectId, baseUrl];
    assert values[1..] == [projectId, baseUrl];
    assert values[1..][1..] == [baseUrl];
    assert values[1..][1..][1..] == [];
    if !Present(token) {
      assert FirstMissing(values) == Some(0);
    } else if !Present(projectId) {
      assert FirstMissing(values[1..]) == Some(0);
    } else if !Present(baseUrl) {
      assert FirstMissing(values[1..][1..]) == Some(0);
      assert FirstMissing(values) == Some(2);
    } else {
      assert FirstMissing(values[1..][1..]) == None;
    }
  }

  /** A failure names one variable that is missing, every variable checked before it being present. */
  lemma FailureNamesFirstMissing(token: Option<string>, projectId: Option<string>, baseUrl: Option<string>)
    ensures var values := [token, projectId, baseUrl];
            CheckEnvironmentVariables(token, projectId, baseUrl).Fail? ==>
              exists k :: 0 <= k < 3 && !Present(values[k]) &&
                (forall j :: 0 <= j < k ==> Present(values[j])) &&
                CheckEnvironmentVariables(token, projectId, baseUrl).error == MissingMessage(Names[k])
  {
    CheckReportsFirstMissing(token, projectId, baseUrl);
    var values := [token, projectId, baseUrl];
    match FirstMissing(values)
    case None =>
    case Some(k) =>
      assert !Present(values[k]) && forall j :: 0 <= j < k ==> Present(values[j]);
  }
}
