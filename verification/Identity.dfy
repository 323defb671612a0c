/** Human identities: which can be minted, and what a token request carries. */
module Identity {
  import opened Sequences
  import opened Text

  datatype Human = Human(
    subject: string, audience: string, tenantModel: string, tenant: string, subtenant: string, omitRequired: bool)

  datatype ClaimNames = ClaimNames(required: string, optional: string)

  /** TenantModel.Claims */
  function Claims(model: string): Option<ClaimNames> {
    if model == "onprem" then Some(ClaimNames("org_id", "project_id"))
    else if model == "oracle" then Some(ClaimNames("tenancy_ocid", "compartment_id"))
    else None
  }

  /** The two known models name their claims differently, so a token for one says nothing under the other. */
  lemma ClaimsOfModels(model: string)
    ensures Claims(model).Some? <==> model == "onprem" || model == "oracle"
    ensures model == "onprem" ==> Claims(model).value == ClaimNames("org_id", "project_id")
    ensures model == "oracle" ==> Claims(model).value == ClaimNames("tenancy_ocid", "compartment_id")
    ensures forall other :: Claims(other).Some? && Claims(model).Some? && other != model ==>
              && {Claims(model).value.required, Claims(model).value.optional}
                 !! {Claims(other).value.required, Claims(other).value.optional}
  {
  }

  predicate SafeStart(c: char) { Letter(c) || Digit(c) }

  predicate SafeRest(c: char) { SafeStart(c) || c in "._:@+-" }

  /** The language of the safeValue pattern. */
  predicate SafeValue(s: string) {
    s != "" && SafeStart(s[0]) && forall i :: 1 <= i < |s| ==> SafeRest(s[i])
  }

  datatype HumanError =
    | UnknownTenantModel(model: string)
    | TenantNeeded
    | SubjectNeeded
    | AudienceNeeded
    | UnsupportedCharacters(field: string, value: string)

  function FirstUnsafe(fields: seq<(string, string)>): (e: Option<HumanError>)
    ensures e.None? <==> forall i :: 0 <= i < |fields| ==> fields[i].1 == "" || SafeValue(fields[i].1)
  {
    if fields == [] then None
    else if fields[0].1 != "" && !SafeValue(fields[0].1) then Some(UnsupportedCharacters(fields[0].0, fields[0].1))
    else FirstUnsafe(fields[1..])
  }

  /** Human.Validate */
  function Validate(h: Human): Option<HumanError> {
    if Claims(h.tenantModel).None? then Some(UnknownTenantModel(h.tenantModel))
    else if !h.omitRequired && h.tenant == "" then Some(TenantNeeded)
    else if h.subject == "" then Some(SubjectNeeded)
    else if h.audience == "" then Some(AudienceNeeded)
    else
      FirstUnsafe([("subject", h.subject), ("audience", h.audience), ("tenant", h.tenant), ("subtenant", h.subtenant)])
  }

  /** What each error complains of. */
  predicate Faulty(h: Human, error: HumanError) {
    match error
    case UnknownTenantModel(model) => model == h.tenantModel && model !in {"onprem", "oracle"}
    case TenantNeeded => h.tenant == "" && !h.omitRequired
    case SubjectNeeded => h.subject == ""
    case AudienceNeeded => h.audience == ""
    case UnsupportedCharacters(field, value) =>
      && value != "" && !SafeValue(value)
      && (field == "subject" ==> value == h.subject) && (field == "audience" ==> value == h.audience)
      && (field == "tenant" ==> value == h.tenant) && (field == "subtenant" ==> value == h.subtenant)
      && field in {"subject", "audience", "tenant", "subtenant"}
  }

  /** The order of the checks. */
  function FaultRank(error: HumanError): nat {
    match error
    case UnknownTenantModel(_) => 0
    case TenantNeeded => 1
    case SubjectNeeded => 2
    case AudienceNeeded => 3
    case UnsupportedCharacters(field, _) =>
      if field == "subject" then 4 else if field == "audience" then 5 else if field == "tenant" then 6 else 7
  }

  lemma ReportedFault(h: Human, d: HumanError)
    ensures Validate(h).Some? ==> Faulty(h, Validate(h).value)
    ensures Faulty(h, d) ==> Validate(h).Some? && FaultRank(Validate(h).value) <= FaultRank(d)
  {
    var fields := [("subject", h.subject), ("audience", h.audience), ("tenant", h.tenant), ("subtenant", h.subtenant)];
    if FirstUnsafe(fields).Some? {
      var i := FirstUnsafeIs(fields);
      assert fields[0].1 == h.subject && fields[1].1 == h.audience && fields[2].1 == h.tenant;
    } else {
      assert forall i :: 0 <= i < |fields| ==> fields[i].1 == "" || SafeValue(fields[i].1);
      assert fields[0].1 == h.subject && fields[1].1 == h.audience && fields[2].1 == h.tenant
          && fields[3].1 == h.subtenant;
    }
  }

  /** The error is the first, in the order of the checks, of what is wrong with the human. */
  lemma FirstFaultReported(h: Human, error: HumanError)
    ensures Validate(h) == Some(error) <==>
            Faulty(h, error) && forall d :: Faulty(h, d) ==> FaultRank(error) <= FaultRank(d)
  {
    forall d ensures Faulty(h, d) ==> Validate(h).Some? && FaultRank(Validate(h).value) <= FaultRank(d) {
      ReportedFault(h, d);
    }
    ReportedFault(h, error);
  }

  lemma {:induction false} FirstUnsafeIs(fields: seq<(string, string)>) returns (i: nat)
    requires FirstUnsafe(fields).Some?
    ensures i < |fields| && FirstUnsafe(fields) == Some(UnsupportedCharacters(fields[i].0, fields[i].1))
    ensures fields[i].1 != "" && !SafeValue(fields[i].1)
    ensures forall j :: 0 <= j < i ==> fields[j].1 == "" || SafeValue(fields[j].1)
  {
    if fields[0].1 != "" && !SafeValue(fields[0].1) {
      i := 0;
    } else {
      var j := FirstUnsafeIs(fields[1..]);
      i := j + 1;
    }
  }

  /** The characters of a safe value. */
  lemma SafeValueIff(s: string)
    ensures SafeValue(s) <==>
            && |s| > 0 && s[0] !in ['.', '_', ':', '@', '+', '-']
            && forall i :: 0 <= i < |s| ==>
                 'a' <= s[i] <= 'z' || 'A' <= s[i] <= 'Z' || '0' <= s[i] <= '9'
                 || s[i] in ['.', '_', ':', '@', '+', '-']
  {
  }

  /** A human can be minted exactly when its model is known, every dimension it needs is there, and every value it
      has is safe. */
  lemma ValidIff(h: Human)
    ensures Validate(h).None? <==>
            && h.tenantModel in {"onprem", "oracle"}
            && SafeValue(h.subject) && SafeValue(h.audience)
            && (if h.tenant == "" then h.omitRequired else SafeValue(h.tenant))
            && (h.subtenant == "" || SafeValue(h.subtenant))
  {
    var fields := [("subject", h.subject), ("audience", h.audience), ("tenant", h.tenant), ("subtenant", h.subtenant)];
    assert fields[0].1 == h.subject && fields[1].1 == h.audience && fields[2].1 == h.tenant
        && fields[3].1 == h.subtenant;
  }
}
