/** Defaults and validation of the suite's configuration, and what an accepted configuration guarantees. */
module Configuration {
  import opened Sequences
  import opened Text
  import opened Identity
  import opened Teardown
  import TeardownTheorems

  const SECOND := 1_000_000_000

  const DEFAULT_HUMAN_SUBJECT := "hyperfleet-e2e@example.com"
  const DEFAULT_HUMAN_AUDIENCE := "hyperfleet-api"
  const DEFAULT_HUMAN_SUBTENANT := "e2e"
  const DEFAULT_SERVICE_ACCOUNT := "hyperfleet-e2e-runner"
  const DEFAULT_SYSTEM_IDENTITY := "system@hyperfleet.local"

  datatype Chart = Chart(repo: string, ref: string, path: string)

  datatype Image = Image(registry: string, repo: string, tag: string)

  datatype TokenRequest = TokenRequest(serviceAccountName: string, namespace: string, audience: string,
                                       expirationSeconds: int)
  {
    predicate IsEnabled() { serviceAccountName != "" }
  }

  datatype LogConfig = LogConfig(level: string, format: string, output: string)

  datatype AdapterDeployment = AdapterDeployment(chart: Chart, image: Image)

  datatype IdentityConfig = IdentityConfig(expectedIdentity: string, tokenRequest: TokenRequest)

  /** The values of a Config. */
  datatype Values = Values(
    authMode: string, tenantModel: string, apiURL: string, runID: string, processing: int, pollInterval: int,
    log: LogConfig, desireAdapter: string, namespace: string, gcpProjectID: string, brokerType: string,
    outputDir: string, testDataDir: string,
    adapterDeployment: AdapterDeployment, apiDeployment: Chart, identity: IdentityConfig)

  /** The environment variables applyDefaults reads. */
  datatype EnvVar =
    | NAMESPACE | GCP_PROJECT_ID | BROKER_TYPE | OUTPUT_DIR | TESTDATA_DIR | RUN_ID
    | ADAPTER_CHART_REPO | ADAPTER_CHART_REF | ADAPTER_CHART_PATH
    | IMAGE_REGISTRY | ADAPTER_IMAGE_REPO | ADAPTER_IMAGE_TAG
    | API_CHART_REPO | API_CHART_REF | API_CHART_PATH

  type Environment = EnvVar -> string

  function Given(value: string, default: string): string {
    if value != "" then value else default
  }

  /** AuditIdentity */
  function AuditIdentity(authMode: string, subject: string): string {
    if authMode == "API" || authMode == "EDGE+API" then subject
    else if authMode == "EDGE" then DEFAULT_SYSTEM_IDENTITY
    else ""
  }

  /** DefaultHuman */
  function DefaultHuman(v: Values): Human {
    Human(DEFAULT_HUMAN_SUBJECT, DEFAULT_HUMAN_AUDIENCE, v.tenantModel, v.runID, DEFAULT_HUMAN_SUBTENANT, false)
  }

  function DefaultLog(log: LogConfig): LogConfig {
    LogConfig(Given(log.level, "info"), Given(log.format, "text"), Given(log.output, "stdout"))
  }

  function DefaultAdapterDeployment(d: AdapterDeployment, env: Environment): AdapterDeployment {
    AdapterDeployment(
      Chart(Given(d.chart.repo, env(ADAPTER_CHART_REPO)),
            Given(d.chart.ref, env(ADAPTER_CHART_REF)),
            Given(d.chart.path, env(ADAPTER_CHART_PATH))),
      Image(Given(d.image.registry, env(IMAGE_REGISTRY)),
            Given(d.image.repo, env(ADAPTER_IMAGE_REPO)),
            Given(d.image.tag, env(ADAPTER_IMAGE_TAG))))
  }

  /** The API chart's ref falls back to the adapter chart's. */
  function DefaultAPIDeployment(chart: Chart, env: Environment, adapterRef: string): Chart {
    Chart(Given(chart.repo, env(API_CHART_REPO)),
          Given(chart.ref, Given(env(API_CHART_REF), adapterRef)),
          Given(chart.path, env(API_CHART_PATH)))
  }

  function DefaultTokenRequest(request: TokenRequest, authMode: string, namespace: string, dryRun: bool): TokenRequest {
    var account := if authMode != "NONE" && !dryRun then Given(request.serviceAccountName, DEFAULT_SERVICE_ACCOUNT)
                   else request.serviceAccountName;
    if account == "" then request
    else TokenRequest(account, Given(request.namespace, namespace), Given(request.audience, "hyperfleet-api"),
                      if request.expirationSeconds == 0 then 7200 else request.expirationSeconds)
  }

  function DefaultIdentity(identity: IdentityConfig, authMode: string, namespace: string, dryRun: bool)
    : IdentityConfig
  {
    IdentityConfig(Given(identity.expectedIdentity, AuditIdentity(authMode, DEFAULT_HUMAN_SUBJECT)),
                   DefaultTokenRequest(identity.tokenRequest, authMode, namespace, dryRun))
  }

  function WithModes(v: Values): Values {
    v.(authMode := Given(v.authMode, "EDGE+API"),
       tenantModel := Given(v.tenantModel, "onprem"),
       processing := if v.processing == 0 then 300 * SECOND else v.processing)
  }

  function WithPolling(v: Values): Values {
    v.(pollInterval := if v.pollInterval == 0 then 10 * SECOND else v.pollInterval,
       log := DefaultLog(v.log),
       desireAdapter := Given(v.desireAdapter, "cl-desire"))
  }

  function WithPlatform(v: Values, env: Environment): Values {
    v.(namespace := Given(v.namespace, env(NAMESPACE)),
       gcpProjectID := Given(v.gcpProjectID, env(GCP_PROJECT_ID)),
       brokerType := Given(v.brokerType, Given(env(BROKER_TYPE), "googlepubsub")))
  }

  function WithPaths(v: Values, env: Environment): Values {
    v.(outputDir := Given(v.outputDir, Given(env(OUTPUT_DIR), "output")),
       testDataDir := Given(v.testDataDir, Given(env(TESTDATA_DIR), "testdata")),
       runID := Given(v.runID, env(RUN_ID)))
  }

  function WithDeployments(v: Values, env: Environment): Values {
    var deployment := DefaultAdapterDeployment(v.adapterDeployment, env);
    v.(adapterDeployment := deployment,
       apiDeployment := DefaultAPIDeployment(v.apiDeployment, env, deployment.chart.ref))
  }

  function WithIdentity(v: Values, dryRun: bool): Values {
    v.(identity := DefaultIdentity(v.identity, v.authMode, v.namespace, dryRun))
  }

  /** The configuration with every unset field defaulted: later defaults read fields defaulted before them. */
  function Defaulted(v: Values, env: Environment, dryRun: bool): Values {
    WithIdentity(WithDeployments(WithPaths(WithPlatform(WithPolling(WithModes(v)), env), env), env), dryRun)
  }

  /** A Config nothing was loaded into. */
  const UNCONFIGURED := Values("", "", "", "", 0, 0, LogConfig("", "", ""), "", "", "", "", "", "",
    AdapterDeployment(Chart("", "", ""), Image("", "", "")), Chart("", "", ""),
    IdentityConfig("", TokenRequest("", "", "", 0)))

  /** The language of LabelValueRegex. */
  predicate LabelValue(s: string) {
    && s != ""
    && SafeStart(s[0]) && SafeStart(s[|s| - 1])
    && forall i :: 0 <= i < |s| ==> SafeStart(s[i]) || s[i] == '-'
  }

  datatype ConfigError =
    | BadAuthMode
    | BadTenantModel
    | APIURLRequired
    | RunIDRequired
    | BadRunID
    | BadBrokerType
    | ProcessingNotPositive
    | IntervalNotPositive
    | NamespaceRequired
    | TokenNamespaceRequired
    | TokenNamespaceMismatch
    | ServiceAccountFixed
    | ServiceAccountRequired

  function ValidateTokenRequest(v: Values, dryRun: bool): Option<ConfigError> {
    var request, strict := v.identity.tokenRequest, !dryRun && v.authMode != "NONE";
    if request.IsEnabled() && strict && v.namespace == "" then Some(NamespaceRequired)
    else if request.IsEnabled() && request.namespace == "" && !dryRun then Some(TokenNamespaceRequired)
    else if request.IsEnabled() && strict && request.namespace != v.namespace then Some(TokenNamespaceMismatch)
    else if request.IsEnabled() && strict && request.serviceAccountName != DEFAULT_SERVICE_ACCOUNT then
      Some(ServiceAccountFixed)
    else if strict && !request.IsEnabled() then Some(ServiceAccountRequired)
    else None
  }

  /** Config.Validate */
  function ValidateConfig(v: Values, dryRun: bool): Option<ConfigError> {
    if v.authMode !in {"NONE", "API", "EDGE", "EDGE+API"} then Some(BadAuthMode)
    else if Claims(v.tenantModel).None? then Some(BadTenantModel)
    else if !dryRun && v.apiURL == "" then Some(APIURLRequired)
    else if !dryRun && v.runID == "" then Some(RunIDRequired)
    else if !dryRun && (|v.runID| > 63 || !LabelValue(v.runID)) then Some(BadRunID)
    else if v.brokerType != "googlepubsub" && v.brokerType != "rabbitmq" then Some(BadBrokerType)
    else if v.processing <= 0 then Some(ProcessingNotPositive)
    else if v.pollInterval <= 0 then Some(IntervalNotPositive)
    else ValidateTokenRequest(v, dryRun)
  }

  class Config {
    var authMode: string
    var tenantModel: string
    var apiURL: string
    var runID: string
    var processing: int
    var pollInterval: int
    var log: LogConfig
    var desireAdapter: string
    var namespace: string
    var gcpProjectID: string
    var brokerType: string
    var outputDir: string
    var testDataDir: string
    var adapterDeployment: AdapterDeployment
    var apiDeployment: Chart
    var identity: IdentityConfig

    constructor (v: Values)
      ensures View() == v
    {
      authMode, tenantModel, apiURL, runID := v.authMode, v.tenantModel, v.apiURL, v.runID;
      processing, pollInterval, log := v.processing, v.pollInterval, v.log;
      desireAdapter, namespace, gcpProjectID, brokerType := v.desireAdapter, v.namespace, v.gcpProjectID, v.brokerType;
      outputDir, testDataDir := v.outputDir, v.testDataDir;
      adapterDeployment, apiDeployment, identity := v.adapterDeployment, v.apiDeployment, v.identity;
    }

    function View(): Values
      reads this
    {
      Values(authMode, tenantModel, apiURL, runID, processing, pollInterval, log, desireAdapter, namespace,
        gcpProjectID, brokerType, outputDir, testDataDir, adapterDeployment, apiDeployment, identity)
    }

    /** applyDefaults, in the order of its parts: later defaults read fields defaulted before them. */
    method ApplyDefaults(env: Environment, dryRun: bool)
      modifies this
      ensures View() == Defaulted(old(View()), env, dryRun)
      ensures SetFieldsKept(old(View()), View())
      ensures PlatformByPriority(old(View()), env, View()) && DeploymentsByPriority(old(View()), env, View())
      ensures RequestByPriority(old(View()), env, View())
      ensures SettingsFixed(old(View()), View()) && IdentityFixed(old(View()), View())
      ensures RequestFixed(old(View()).identity.tokenRequest, View(), dryRun)
      ensures Defaulted(View(), env, dryRun) == View()
    {
      ghost var v := View();
      ApplyModes();
      ApplyPolling();
      ApplyPlatform(env);
      ApplyPaths(env);
      ApplyDeployments(env);
      ApplyIdentityDefaults(dryRun);
      DefaultsKeepSetFields(v, env, dryRun);
      DefaultsFollowPriority(v, env, dryRun);
      FixedDefaults(v, env, dryRun);
      DefaultsAreIdempotent(v, env, dryRun);
    }

    method ApplyModes()
      modifies `authMode, `tenantModel, `processing
      ensures View() == WithModes(old(View()))
    {
      if authMode == "" { authMode := "EDGE+API"; }
      if tenantModel == "" { tenantModel := "onprem"; }
      if processing == 0 { processing := 300 * SECOND; }
    }

    method ApplyPolling()
      modifies `pollInterval, `log, `desireAdapter
      ensures View() == WithPolling(old(View()))
    {
      if pollInterval == 0 { pollInterval := 10 * SECOND; }
      log := DefaultLog(log);
      if desireAdapter == "" { desireAdapter := "cl-desire"; }
    }

    method ApplyPlatform(env: Environment)
      modifies `namespace, `gcpProjectID, `brokerType
      ensures View() == WithPlatform(old(View()), env)
    {
      if namespace == "" { namespace := env(NAMESPACE); }
      if gcpProjectID == "" { gcpProjectID := env(GCP_PROJECT_ID); }
      if brokerType == "" { brokerType := Given(env(BROKER_TYPE), "googlepubsub"); }
    }

    method ApplyPaths(env: Environment)
      modifies `outputDir, `testDataDir, `runID
      ensures View() == WithPaths(old(View()), env)
    {
      if outputDir == "" { outputDir := Given(env(OUTPUT_DIR), "output"); }
      if testDataDir == "" { testDataDir := Given(env(TESTDATA_DIR), "testdata"); }
      if runID == "" { runID := env(RUN_ID); }
    }

    method ApplyDeployments(env: Environment)
      modifies `adapterDeployment, `apiDeployment
      ensures View() == WithDeployments(old(View()), env)
    {
      var chart, image := adapterDeployment.chart, adapterDeployment.image;
      chart := chart.(repo := Given(chart.repo, env(ADAPTER_CHART_REPO)));
      chart := chart.(ref := Given(chart.ref, env(ADAPTER_CHART_REF)));
      chart := chart.(path := Given(chart.path, env(ADAPTER_CHART_PATH)));
      image := image.(registry := Given(image.registry, env(IMAGE_REGISTRY)));
      image := image.(repo := Given(image.repo, env(ADAPTER_IMAGE_REPO)));
      image := image.(tag := Given(image.tag, env(ADAPTER_IMAGE_TAG)));
      adapterDeployment := AdapterDeployment(chart, image);
      apiDeployment := apiDeployment.(repo := Given(apiDeployment.repo, env(API_CHART_REPO)));
      apiDeployment := apiDeployment.(ref := Given(apiDeployment.ref, Given(env(API_CHART_REF), chart.ref)));
      apiDeployment := apiDeployment.(path := Given(apiDeployment.path, env(API_CHART_PATH)));
    }

    method ApplyIdentityDefaults(dryRun: bool)
      modifies `identity
      ensures View() == WithIdentity(old(View()), dryRun)
    {
      var request := identity.tokenRequest;
      if authMode != "NONE" && !dryRun && !request.IsEnabled() {
        request := request.(serviceAccountName := DEFAULT_SERVICE_ACCOUNT);
      }
      if request.IsEnabled() {
        if request.namespace == "" { request := request.(namespace := namespace); }
        if request.expirationSeconds == 0 { request := request.(expirationSeconds := 7200); }
        if request.audience == "" { request := request.(audience := "hyperfleet-api"); }
      }
      var expected := Given(identity.expectedIdentity, AuditIdentity(authMode, DEFAULT_HUMAN_SUBJECT));
      identity := IdentityConfig(expected, request);
    }

    /** The end of Load, once the catalog is built. */
    method Finish(env: Environment, dryRun: bool) returns (error: Option<ConfigError>)
      modifies this
      ensures View() == Defaulted(old(View()), env, dryRun)
      ensures error == ValidateConfig(View(), dryRun)
      ensures error.None? <==> Acceptable(View(), dryRun)
      ensures error != Some(ServiceAccountRequired)
    {
      ApplyDefaults(env, dryRun);
      ServiceAccountNeverMissing(old(View()), env, dryRun);
      error := ValidateConfig(View(), dryRun);
      AcceptedIffAcceptable(View(), dryRun);
    }
  }

  // ---------------------------------------------------------------- what the defaults give

  /** The first of the values that is set; "" is unset. */
  function FirstSet(values: seq<string>): string {
    if values == [] then "" else if values[0] != "" then values[0] else FirstSet(values[1..])
  }

  lemma {:induction false} FirstSetIsGiven(a: string, b: string, c: string, d: string)
    ensures FirstSet([a, b]) == Given(a, b)
    ensures FirstSet([a, b, c]) == Given(a, Given(b, c))
    ensures FirstSet([a, b, c, d]) == Given(a, Given(b, Given(c, d)))
  {
    PairSet(a, b);
    PairSet(b, c);
    PairSet(c, d);
    assert [a, b, c][1..] == [b, c] && [b, c, d][1..] == [c, d];
    assert [a, b, c, d][1..] == [b, c, d];
    assert FirstSet([b, c, d]) == Given(b, Given(c, d));
  }

  lemma {:induction false} PairSet(a: string, b: string)
    ensures FirstSet([a, b]) == Given(a, b)
  {
    assert [a, b][1..] == [b] && [b][1..] == [];
    assert FirstSet([b]) == b;
  }

  /** A field comes from the configuration if set there, else from its variable, else from its fallbacks. */
  predicate PlatformByPriority(v: Values, env: Environment, w: Values) {
    && w.namespace == FirstSet([v.namespace, env(NAMESPACE)])
    && w.gcpProjectID == FirstSet([v.gcpProjectID, env(GCP_PROJECT_ID)])
    && w.brokerType == FirstSet([v.brokerType, env(BROKER_TYPE), "googlepubsub"])
    && w.outputDir == FirstSet([v.outputDir, env(OUTPUT_DIR), "output"])
    && w.testDataDir == FirstSet([v.testDataDir, env(TESTDATA_DIR), "testdata"])
    && w.runID == FirstSet([v.runID, env(RUN_ID)])
  }

  predicate DeploymentsByPriority(v: Values, env: Environment, w: Values) {
    var chart, image, api := v.adapterDeployment.chart, v.adapterDeployment.image, v.apiDeployment;
    && w.adapterDeployment.chart == Chart(FirstSet([chart.repo, env(ADAPTER_CHART_REPO)]),
                                          FirstSet([chart.ref, env(ADAPTER_CHART_REF)]),
                                          FirstSet([chart.path, env(ADAPTER_CHART_PATH)]))
    && w.adapterDeployment.image == Image(FirstSet([image.registry, env(IMAGE_REGISTRY)]),
                                          FirstSet([image.repo, env(ADAPTER_IMAGE_REPO)]),
                                          FirstSet([image.tag, env(ADAPTER_IMAGE_TAG)]))
    && w.apiDeployment == Chart(FirstSet([api.repo, env(API_CHART_REPO)]),
                                FirstSet([api.ref, env(API_CHART_REF), chart.ref, env(ADAPTER_CHART_REF)]),
                                FirstSet([api.path, env(API_CHART_PATH)]))
  }

  /** A token request that is made has a namespace of its own, or that of the installation. */
  predicate RequestByPriority(v: Values, env: Environment, w: Values) {
    w.identity.tokenRequest.IsEnabled() ==>
      w.identity.tokenRequest.namespace == FirstSet([v.identity.tokenRequest.namespace, v.namespace, env(NAMESPACE)])
  }

  /** Every field follows the priority, whichever part of the defaults sets it and whatever the parts before it did. */
  lemma DefaultsFollowPriority(v: Values, env: Environment, dryRun: bool)
    ensures PlatformByPriority(v, env, Defaulted(v, env, dryRun))
    ensures DeploymentsByPriority(v, env, Defaulted(v, env, dryRun))
    ensures RequestByPriority(v, env, Defaulted(v, env, dryRun))
  {
    PlatformFollowsPriority(v, env, dryRun);
    DeploymentsFollowPriority(v, env, dryRun);
    FirstSetIsGiven(v.identity.tokenRequest.namespace, v.namespace, env(NAMESPACE), "");
  }

  lemma PlatformFollowsPriority(v: Values, env: Environment, dryRun: bool)
    ensures PlatformByPriority(v, env, Defaulted(v, env, dryRun))
  {
    FirstSetIsGiven(v.namespace, env(NAMESPACE), "", "");
    FirstSetIsGiven(v.gcpProjectID, env(GCP_PROJECT_ID), "", "");
    FirstSetIsGiven(v.brokerType, env(BROKER_TYPE), "googlepubsub", "");
    FirstSetIsGiven(v.outputDir, env(OUTPUT_DIR), "output", "");
    FirstSetIsGiven(v.testDataDir, env(TESTDATA_DIR), "testdata", "");
    FirstSetIsGiven(v.runID, env(RUN_ID), "", "");
  }

  lemma DeploymentsFollowPriority(v: Values, env: Environment, dryRun: bool)
    ensures DeploymentsByPriority(v, env, Defaulted(v, env, dryRun))
  {
    var chart, image, api := v.adapterDeployment.chart, v.adapterDeployment.image, v.apiDeployment;
    FirstSetIsGiven(chart.repo, env(ADAPTER_CHART_REPO), "", "");
    FirstSetIsGiven(chart.ref, env(ADAPTER_CHART_REF), "", "");
    FirstSetIsGiven(chart.path, env(ADAPTER_CHART_PATH), "", "");
    FirstSetIsGiven(image.registry, env(IMAGE_REGISTRY), "", "");
    FirstSetIsGiven(image.repo, env(ADAPTER_IMAGE_REPO), "", "");
    FirstSetIsGiven(image.tag, env(ADAPTER_IMAGE_TAG), "", "");
    FirstSetIsGiven(api.repo, env(API_CHART_REPO), "", "");
    FirstSetIsGiven(api.ref, env(API_CHART_REF), chart.ref, env(ADAPTER_CHART_REF));
    FirstSetIsGiven(api.path, env(API_CHART_PATH), "", "");
  }

  /** The values the other fields get when they are not set. */
  predicate SettingsFixed(v: Values, w: Values) {
    && w.authMode == FirstSet([v.authMode, "EDGE+API"])
    && w.tenantModel == FirstSet([v.tenantModel, "onprem"])
    && w.processing == (if v.processing == 0 then 300_000_000_000 else v.processing)
    && w.pollInterval == (if v.pollInterval == 0 then 10_000_000_000 else v.pollInterval)
    && w.log.level == FirstSet([v.log.level, "info"])
    && w.log.format == FirstSet([v.log.format, "text"])
    && w.log.output == FirstSet([v.log.output, "stdout"])
    && w.desireAdapter == FirstSet([v.desireAdapter, "cl-desire"])
  }

  /** The audit identity of each mode, where none is configured. */
  predicate IdentityFixed(v: Values, w: Values) {
    var audited := w.identity.expectedIdentity;
    if v.identity.expectedIdentity != "" then audited == v.identity.expectedIdentity
    else
      && (w.authMode in {"API", "EDGE+API"} ==> audited == "hyperfleet-e2e@example.com")
      && (w.authMode == "EDGE" ==> audited == "system@hyperfleet.local")
      && (w.authMode !in {"API", "EDGE+API", "EDGE"} ==> audited == "")
  }

  /** A request that is made has the fixed account, audience and lifetime where they are not set; one that is not made
      stays as it is. */
  predicate RequestFixed(request: TokenRequest, w: Values, dryRun: bool) {
    var result := w.identity.tokenRequest;
    if request.serviceAccountName == "" && (w.authMode == "NONE" || dryRun) then result == request
    else
      && result.serviceAccountName == FirstSet([request.serviceAccountName, "hyperfleet-e2e-runner"])
      && result.audience == FirstSet([request.audience, "hyperfleet-api"])
      && result.expirationSeconds == if request.expirationSeconds == 0 then 7200 else request.expirationSeconds
  }

  lemma FixedDefaults(v: Values, env: Environment, dryRun: bool)
    ensures SettingsFixed(v, Defaulted(v, env, dryRun))
    ensures IdentityFixed(v, Defaulted(v, env, dryRun))
    ensures RequestFixed(v.identity.tokenRequest, Defaulted(v, env, dryRun), dryRun)
  {
    PairSet(v.authMode, "EDGE+API");
    PairSet(v.tenantModel, "onprem");
    PairSet(v.log.level, "info");
    PairSet(v.log.format, "text");
    PairSet(v.log.output, "stdout");
    PairSet(v.desireAdapter, "cl-desire");
    PairSet(v.identity.tokenRequest.serviceAccountName, "hyperfleet-e2e-runner");
    PairSet(v.identity.tokenRequest.audience, "hyperfleet-api");
  }

  /** Where the API identifies its caller, the audit identity the suite expects by default is the default human's
      subject, and the token it requests for its machine is for the default human's audience. */
  lemma AuditedAsDefaultHuman(v: Values, env: Environment, dryRun: bool)
    requires v.identity.expectedIdentity == "" && v.identity.tokenRequest.audience == ""
    ensures var w := Defaulted(v, env, dryRun);
            && (w.authMode in {"API", "EDGE+API"} ==> w.identity.expectedIdentity == DefaultHuman(w).subject)
            && (w.identity.tokenRequest.IsEnabled() ==> w.identity.tokenRequest.audience == DefaultHuman(w).audience)
            && DefaultHuman(w).tenant == w.runID && DefaultHuman(w).subtenant == "e2e"
  {
  }

  predicate Kept(value: string, result: string) {
    value != "" ==> result == value
  }

  predicate ChartKept(chart: Chart, result: Chart) {
    Kept(chart.repo, result.repo) && Kept(chart.ref, result.ref) && Kept(chart.path, result.path)
  }

  predicate ImageKept(image: Image, result: Image) {
    Kept(image.registry, result.registry) && Kept(image.repo, result.repo) && Kept(image.tag, result.tag)
  }

  predicate RequestKept(request: TokenRequest, result: TokenRequest) {
    && Kept(request.serviceAccountName, result.serviceAccountName)
    && Kept(request.namespace, result.namespace)
    && Kept(request.audience, result.audience)
    && (request.expirationSeconds != 0 ==> result.expirationSeconds == request.expirationSeconds)
  }

  /** Nothing that is set changes. */
  predicate SetFieldsKept(v: Values, w: Values) {
    && Kept(v.authMode, w.authMode) && Kept(v.tenantModel, w.tenantModel)
    && v.apiURL == w.apiURL && Kept(v.runID, w.runID)
    && (v.processing != 0 ==> w.processing == v.processing)
    && (v.pollInterval != 0 ==> w.pollInterval == v.pollInterval)
    && Kept(v.log.level, w.log.level) && Kept(v.log.format, w.log.format) && Kept(v.log.output, w.log.output)
    && Kept(v.desireAdapter, w.desireAdapter) && Kept(v.namespace, w.namespace)
    && Kept(v.gcpProjectID, w.gcpProjectID) && Kept(v.brokerType, w.brokerType)
    && Kept(v.outputDir, w.outputDir) && Kept(v.testDataDir, w.testDataDir)
    && ChartKept(v.adapterDeployment.chart, w.adapterDeployment.chart)
    && ImageKept(v.adapterDeployment.image, w.adapterDeployment.image)
    && ChartKept(v.apiDeployment, w.apiDeployment)
    && Kept(v.identity.expectedIdentity, w.identity.expectedIdentity)
    && RequestKept(v.identity.tokenRequest, w.identity.tokenRequest)
  }

  lemma DefaultsKeepSetFields(v: Values, env: Environment, dryRun: bool)
    ensures SetFieldsKept(v, Defaulted(v, env, dryRun))
  {
  }

  /** Applying the defaults again changes nothing, although later ones read what earlier ones set. */
  lemma DefaultsAreIdempotent(v: Values, env: Environment, dryRun: bool)
    ensures Defaulted(Defaulted(v, env, dryRun), env, dryRun) == Defaulted(v, env, dryRun)
  {
  }

  // ---------------------------------------------------------------- guarantees

  predicate Alphanumeric(c: char) {
    'a' <= c <= 'z' || 'A' <= c <= 'Z' || '0' <= c <= '9'
  }

  /** A Kubernetes label value of a run. */
  predicate IsRunID(s: string) {
    && 1 <= |s| <= 63 && Alphanumeric(s[0]) && Alphanumeric(s[|s| - 1])
    && forall i :: 0 <= i < |s| ==> Alphanumeric(s[i]) || s[i] == '-'
  }

  /** What validation demands, all of it. Outside a dry run an authenticated suite must request its tokens for the fixed
      account in the installation's namespace. */
  predicate Acceptable(v: Values, dryRun: bool) {
    var request := v.identity.tokenRequest;
    && v.authMode in {"NONE", "API", "EDGE", "EDGE+API"} && v.tenantModel in {"onprem", "oracle"}
    && v.brokerType in {"googlepubsub", "rabbitmq"} && v.processing > 0 && v.pollInterval > 0
    && (!dryRun ==> v.apiURL != "" && IsRunID(v.runID))
    && (!dryRun && v.authMode == "NONE" && request.serviceAccountName != "" ==> request.namespace != "")
    && (!dryRun && v.authMode != "NONE" ==>
          request.serviceAccountName == "hyperfleet-e2e-runner" && request.namespace == v.namespace != "")
  }

  lemma AcceptedIffAcceptable(v: Values, dryRun: bool)
    ensures ValidateConfig(v, dryRun).None? <==> Acceptable(v, dryRun)
  {
    RunIDIff(v.runID);
    assert Claims(v.tenantModel).None? <==> v.tenantModel !in {"onprem", "oracle"};
  }

  lemma RunIDIff(s: string)
    ensures IsRunID(s) <==> |s| <= 63 && LabelValue(s)
  {
    assert forall i :: 0 <= i < |s| ==> (SafeStart(s[i]) <==> Alphanumeric(s[i]));
  }

  /** What each error complains of. */
  predicate Wrong(v: Values, dryRun: bool, error: ConfigError) {
    var request, strict := v.identity.tokenRequest, !dryRun && v.authMode != "NONE";
    match error
    case BadAuthMode => v.authMode !in {"NONE", "API", "EDGE", "EDGE+API"}
    case BadTenantModel => v.tenantModel !in {"onprem", "oracle"}
    case APIURLRequired => !dryRun && v.apiURL == ""
    case RunIDRequired => !dryRun && v.runID == ""
    case BadRunID => !dryRun && !IsRunID(v.runID)
    case BadBrokerType => v.brokerType !in {"googlepubsub", "rabbitmq"}
    case ProcessingNotPositive => v.processing <= 0
    case IntervalNotPositive => v.pollInterval <= 0
    case NamespaceRequired => strict && request.serviceAccountName != "" && v.namespace == ""
    case TokenNamespaceRequired => !dryRun && request.serviceAccountName != "" && request.namespace == ""
    case TokenNamespaceMismatch => strict && request.serviceAccountName != "" && request.namespace != v.namespace
    case ServiceAccountFixed => strict && request.serviceAccountName !in {"", "hyperfleet-e2e-runner"}
    case ServiceAccountRequired => strict && request.serviceAccountName == ""
  }

  function Rank(error: ConfigError): nat {
    match error
    case BadAuthMode => 0
    case BadTenantModel => 1
    case APIURLRequired => 2
    case RunIDRequired => 3
    case BadRunID => 4
    case BadBrokerType => 5
    case ProcessingNotPositive => 6
    case IntervalNotPositive => 7
    case NamespaceRequired => 8
    case TokenNamespaceRequired => 9
    case TokenNamespaceMismatch => 10
    case ServiceAccountFixed => 11
    case ServiceAccountRequired => 12
  }

  lemma ReportedIsFirst(v: Values, dryRun: bool, d: ConfigError)
    ensures ValidateConfig(v, dryRun).Some? ==> Wrong(v, dryRun, ValidateConfig(v, dryRun).value)
    ensures Wrong(v, dryRun, d) ==>
              ValidateConfig(v, dryRun).Some? && Rank(ValidateConfig(v, dryRun).value) <= Rank(d)
  {
    RunIDIff(v.runID);
    assert Claims(v.tenantModel).None? <==> v.tenantModel !in {"onprem", "oracle"};
  }

  /** The error reported is the first, in the order of the checks, that something is wrong for. */
  lemma FirstWrongIsReported(v: Values, dryRun: bool, error: ConfigError)
    ensures ValidateConfig(v, dryRun) == Some(error) <==>
            Wrong(v, dryRun, error) && forall d :: Wrong(v, dryRun, d) ==> Rank(error) <= Rank(d)
  {
    forall d ensures Wrong(v, dryRun, d) ==>
        ValidateConfig(v, dryRun).Some? && Rank(ValidateConfig(v, dryRun).value) <= Rank(d) {
      ReportedIsFirst(v, dryRun, d);
    }
    ReportedIsFirst(v, dryRun, error);
  }

  /** Every label value is a safe value, because each of its characters is. */
  lemma LabelValuesAreSafe(s: string)
    requires LabelValue(s)
    ensures SafeValue(s)
  {
    forall i | 1 <= i < |s| ensures SafeRest(s[i]) {
      assert SafeStart(s[i]) || s[i] == '-';
    }
  }

  lemma FixedValuesAreSafe()
    ensures SafeValue(DEFAULT_HUMAN_SUBJECT) && SafeValue(DEFAULT_HUMAN_AUDIENCE) && SafeValue(DEFAULT_HUMAN_SUBTENANT)
  {
  }

  /** The default human can be minted exactly when the tenant model is known and the run ID is a safe value. */
  lemma DefaultHumanValidIff(v: Values)
    ensures Validate(DefaultHuman(v)).None? <==> Claims(v.tenantModel).Some? && SafeValue(v.runID)
  {
    FixedValuesAreSafe();
    ValidIff(DefaultHuman(v));
  }

  /** Every configuration accepted outside a dry run has a default human that can be minted. */
  lemma AcceptedHumanIsValid(v: Values)
    requires ValidateConfig(v, false).None?
    ensures Validate(DefaultHuman(v)).None?
  {
    LabelValuesAreSafe(v.runID);
    DefaultHumanValidIff(v);
  }

  /** A dry run checks the tenant model but not the run ID, so there the human may be unusable. */
  lemma DryRunHumanMayBeInvalid(v: Values)
    requires ValidateConfig(v, true).None?
    ensures Validate(DefaultHuman(v)).None? <==> SafeValue(v.runID)
  {
    DefaultHumanValidIff(v);
  }

  /** And one is: a dry run accepts the defaulted empty configuration, which has no run ID. */
  lemma DryRunWithoutRunID(env: Environment)
    requires forall e :: env(e) == ""
    ensures var v := Defaulted(UNCONFIGURED, env, true);
            ValidateConfig(v, true).None? && v.runID == "" && Validate(DefaultHuman(v)).Some?
  {
    var v := Defaulted(UNCONFIGURED, env, true);
    DryRunHumanMayBeInvalid(v);
  }

  /** Once the defaults are applied, Validate cannot end in its last branch. */
  lemma ServiceAccountNeverMissing(v: Values, env: Environment, dryRun: bool)
    ensures ValidateConfig(Defaulted(v, env, dryRun), dryRun) != Some(ServiceAccountRequired)
  {
  }

  /** With an accepted poll interval the hard-delete poll makes at most one request per interval of its timeout. */
  lemma AcceptedPollsAreBounded(v: Values, dryRun: bool, path: string, start: int, timeout: int, polls: seq<Event>)
    requires ValidateConfig(v, dryRun).None? && PollRun(path, start, timeout, v.pollInterval, polls)
    ensures v.pollInterval > 0
    ensures |polls| <= if timeout <= 0 then 0 else (timeout + v.pollInterval - 1) / v.pollInterval
  {
    TeardownTheorems.PollsAreBounded(path, start, timeout, v.pollInterval, polls);
  }
}
