/** Alert fingerprint preimages: length-prefixed parts that no field content can imitate. */
module Fingerprints {
  import opened Prelude
  import opened Texts

  datatype AlertClass = EarlyWatch | ConfirmedOpportunity | ThesisStrengthening | ThesisWeakening | OpportunityExpired | RiskAlert

  datatype Lifecycle = Discovered | Qualified | Emerging | Confirmed | Monitoring | Decaying | Rejected | Archived

  datatype RiskState = Unknown | Low | Medium | High | Critical | Conflicting

  datatype UpdateKind = MaterialDeterioration | Cancellation | Expiry | Risk

  function ClassText(c: AlertClass): string {
    match c
    case EarlyWatch => "EARLY_WATCH"
    case ConfirmedOpportunity => "CONFIRMED_OPPORTUNITY"
    case ThesisStrengthening => "THESIS_STRENGTHENING"
    case ThesisWeakening => "THESIS_WEAKENING"
    case OpportunityExpired => "OPPORTUNITY_EXPIRED"
    case RiskAlert => "RISK_ALERT"
  }

  function LifecycleText(s: Lifecycle): string {
    match s
    case Discovered => "DISCOVERED"
    case Qualified => "QUALIFIED"
    case Emerging => "EMERGING"
    case Confirmed => "CONFIRMED"
    case Monitoring => "MONITORING"
    case Decaying => "DECAYING"
    case Rejected => "REJECTED"
    case Archived => "ARCHIVED"
  }

  function RiskText(s: RiskState): string {
    match s
    case Unknown => "UNKNOWN"
    case Low => "LOW"
    case Medium => "MEDIUM"
    case High => "HIGH"
    case Critical => "CRITICAL"
    case Conflicting => "CONFLICTING"
  }

  function KindText(k: UpdateKind): string {
    match k
    case MaterialDeterioration => "MATERIAL_DETERIORATION"
    case Cancellation => "CANCELLATION"
    case Expiry => "EXPIRY"
    case Risk => "RISK"
  }

  // --- numbers ----------------------------------------------------------------------------------

  predicate IsDigit(c: char) { '0' <= c <= '9' }

  /** `String(n)`. */
  function Decimal(n: nat): (s: string)
    ensures s != [] && forall i :: 0 <= i < |s| ==> IsDigit(s[i])
  {
    var digit := '0' + (n % 10) as char;
    if n < 10 then [digit] else Decimal(n / 10) + [digit]
  }

  function ReadDecimal(s: string): int {
    if s == [] then 0 else ReadDecimal(s[..|s| - 1]) * 10 + (s[|s| - 1] as int - '0' as int)
  }

  lemma {:induction false} ReadBack(n: nat)
    ensures ReadDecimal(Decimal(n)) == n
  {
    var s := Decimal(n);
    if n >= 10 {
      ReadBack(n / 10);
      assert s[..|s| - 1] == Decimal(n / 10);
    } else {
      assert s[..0] == [];
      assert ReadDecimal(s) == ReadDecimal(s[..0]) * 10 + n;
    }
  }

  lemma DecimalIsInjective(m: nat, n: nat)
    ensures Decimal(m) == Decimal(n) <==> m == n
  {
    ReadBack(m);
    ReadBack(n);
  }

  // --- parts ------------------------------------------------------------------------------------

  /** `fingerprintPart`. */
  function Part(field: string, value: string): string {
    field + (['='] + (Decimal(|value|) + ([':'] + value)))
  }

  /** A part tells its value and where it ends, whatever the value contains. */
  lemma PartUnique(field: string, v: string, w: string, x: string, y: string)
    requires Part(field, v) + x == Part(field, w) + y
    ensures v == w && x == y
  {
    assert Part(field, v) + x == field + (['='] + (Decimal(|v|) + ([':'] + (v + x))));
    assert Part(field, w) + y == field + (['='] + (Decimal(|w|) + ([':'] + (w + y))));
    Cancel(field, ['='] + (Decimal(|v|) + ([':'] + (v + x))), ['='] + (Decimal(|w|) + ([':'] + (w + y))));
    Cancel(['='], Decimal(|v|) + ([':'] + (v + x)), Decimal(|w|) + ([':'] + (w + y)));
    UpTo(Decimal(|v|), Decimal(|w|), ':', v + x, w + y);
    DecimalIsInjective(|v|, |w|);
    SplitAt(v, w, x, y);
  }

  /** `[head, ...parts].join('|')`, without the head. */
  function Parts(fields: seq<string>, values: seq<string>): string
    requires |fields| == |values|
    decreases |fields|
  {
    if fields == [] then "" else ['|'] + (Part(fields[0], values[0]) + Parts(fields[1..], values[1..]))
  }

  /** The joined parts determine every value, for arbitrary contents. */
  lemma {:induction false} PartsUnique(fields: seq<string>, v: seq<string>, w: seq<string>)
    requires |fields| == |v| == |w| && Parts(fields, v) == Parts(fields, w)
    ensures v == w
    decreases |fields|
  {
    if fields != [] {
      var x, y := Parts(fields[1..], v[1..]), Parts(fields[1..], w[1..]);
      Cancel(['|'], Part(fields[0], v[0]) + x, Part(fields[0], w[0]) + y);
      PartUnique(fields[0], v[0], w[0], x, y);
      PartsUnique(fields[1..], v[1..], w[1..]);
      assert v == [v[0]] + v[1..] && w == [w[0]] + w[1..];
    }
  }

  // --- the fingerprint --------------------------------------------------------------------------

  datatype FingerprintInput = FingerprintInput(assetId: string, profileId: string, alertType: AlertClass, lifecycle: Lifecycle,
                                               risk: RiskState, thesisVersion: int, scenario: string, generation: int, evidence: string)

  const FIELDS: seq<string> := ["assetId", "profileId", "alertType", "lifecycleState", "riskState", "thesisVersion",
                                "executionScenarioId", "validUntilGeneration", "materialEvidenceFingerprint"]

  predicate Valid(i: FingerprintInput) {
    i.assetId != "" && i.profileId != "" && i.thesisVersion >= 0 && i.scenario != "" && i.generation >= 0 && i.evidence != ""
  }

  function Values(i: FingerprintInput): seq<string>
    requires Valid(i)
  {
    [i.assetId, i.profileId, ClassText(i.alertType), LifecycleText(i.lifecycle), RiskText(i.risk), Decimal(i.thesisVersion),
     i.scenario, Decimal(i.generation), i.evidence]
  }

  /** `fingerprintOf`; an empty identifier or a negative number is refused. */
  function FingerprintOf(i: FingerprintInput): Option<string> {
    if Valid(i) then Some(Preimage(FIELDS, i)) else None
  }

  function Preimage(fields: seq<string>, i: FingerprintInput): string
    requires Valid(i) && |fields| == 9
  {
    "alert-fingerprint:v1" + Parts(fields, Values(i))
  }

  /** One line of the preimage and what follows it. */
  function Line(field: string, value: string, rest: string): string {
    "|" + field + "=" + Decimal(|value|) + ":" + value + rest
  }

  lemma PartsFrom(fields: seq<string>, values: seq<string>, k: nat)
    requires |fields| == |values| && k < |fields|
    ensures Parts(fields[k..], values[k..]) == Line(fields[k], values[k], Parts(fields[k + 1..], values[k + 1..]))
  {
    assert fields[k..][1..] == fields[k + 1..] && values[k..][1..] == values[k + 1..];
  }

  /** The texts from each field on: a line for the field, then the text from the next. */
  predicate Follow(from: seq<string>, f: seq<string>, v: seq<string>) {
    && |from| == |f| + 1 == |v| + 1 && from[|f|] == ""
    && forall k :: 0 <= k < |f| ==> from[k] == Line(f[k], v[k], from[k + 1])
  }

  lemma AllParts(f: seq<string>, v: seq<string>) returns (from: seq<string>)
    requires |f| == |v|
    ensures Follow(from, f, v) && from[0] == Parts(f, v)
  {
    from := seq(|f| + 1, k requires 0 <= k <= |f| => Parts(f[k..], v[k..]));
    assert f[0..] == f && v[0..] == v;
    forall k | 0 <= k < |f| ensures from[k] == Line(f[k], v[k], from[k + 1]) {
      PartsFrom(f, v, k);
    }
  }

  /** The preimage lists its nine fields by name, each with the length and the text of its value, and nothing else. */
  lemma PreimageText(i: FingerprintInput) returns (from: seq<string>)
    requires Valid(i)
    ensures Follow(from, ["assetId", "profileId", "alertType", "lifecycleState", "riskState", "thesisVersion",
                          "executionScenarioId", "validUntilGeneration", "materialEvidenceFingerprint"],
                   [i.assetId, i.profileId, ClassText(i.alertType), LifecycleText(i.lifecycle), RiskText(i.risk),
                    Decimal(i.thesisVersion), i.scenario, Decimal(i.generation), i.evidence])
    ensures FingerprintOf(i) == Some("alert-fingerprint:v1" + from[0])
  {
    from := AllParts(FIELDS, Values(i));
  }

  lemma VocabulariesAreInjective(a: FingerprintInput, b: FingerprintInput)
    ensures ClassText(a.alertType) == ClassText(b.alertType) ==> a.alertType == b.alertType
    ensures RiskText(a.risk) == RiskText(b.risk) ==> a.risk == b.risk
  {
    TextOfClass(a.alertType);
    TextOfClass(b.alertType);
    TextOfRisk(a.risk);
    TextOfRisk(b.risk);
  }

  /** Length and one letter tell the class. */
  lemma TextOfClass(c: AlertClass)
    ensures var s := ClassText(c);
            c == if |s| == 11 then EarlyWatch else if |s| == 21 then ConfirmedOpportunity else if |s| == 20 then ThesisStrengthening
                 else if |s| == 16 then ThesisWeakening else if |s| == 19 then OpportunityExpired else RiskAlert
  {
  }

  lemma TextOfRisk(c: RiskState)
    ensures var s := RiskText(c);
            c == if |s| == 7 then Unknown else if |s| == 3 then Low else if |s| == 6 then Medium else if |s| == 4 then High
                 else if |s| == 8 then Critical else Conflicting
  {
  }

  lemma TextOfLifecycle(c: Lifecycle)
    ensures var s := LifecycleText(c);
            |s| >= 8 && c == if s[0] == 'Q' then Qualified else if s[0] == 'E' then Emerging else if s[0] == 'C' then Confirmed
                 else if s[0] == 'M' then Monitoring else if s[0] == 'R' then Rejected else if s[0] == 'A' then Archived
                 else if |s| == 10 then Discovered else Decaying
  {
  }

  /** Distinct inputs have distinct preimages, whatever separators their fields contain. */
  lemma FingerprintIsInjective(a: FingerprintInput, b: FingerprintInput)
    requires FingerprintOf(a).Some? && FingerprintOf(b).Some?
    ensures FingerprintOf(a) == FingerprintOf(b) <==> a == b
  {
    PreimageIsInjective(FIELDS, a, b);
  }

  lemma PreimageIsInjective(fields: seq<string>, a: FingerprintInput, b: FingerprintInput)
    requires |fields| == 9 && Valid(a) && Valid(b)
    ensures Preimage(fields, a) == Preimage(fields, b) ==> a == b
  {
    if Preimage(fields, a) == Preimage(fields, b) {
      Cancel("alert-fingerprint:v1", Parts(fields, Values(a)), Parts(fields, Values(b)));
      PartsUnique(fields, Values(a), Values(b));
      ValuesDetermine(a, b);
    }
  }

  lemma ValuesDetermine(a: FingerprintInput, b: FingerprintInput)
    requires Valid(a) && Valid(b) && Values(a) == Values(b)
    ensures a == b
  {
    var v, w := Values(a), Values(b);
    assert v[0] == w[0] && v[1] == w[1] && v[2] == w[2] && v[3] == w[3] && v[4] == w[4];
    assert v[5] == w[5] && v[6] == w[6] && v[7] == w[7] && v[8] == w[8];
    VocabulariesAreInjective(a, b);
    TextOfLifecycle(a.lifecycle);
    TextOfLifecycle(b.lifecycle);
    DecimalIsInjective(a.thesisVersion, b.thesisVersion);
    DecimalIsInjective(a.generation, b.generation);
  }

  // --- the update key ---------------------------------------------------------------------------

  datatype UpdateKeyInput = UpdateKeyInput(prior: string, kind: UpdateKind, fingerprint: string, thesisVersion: nat)

  /** What `deriveAlertUpdateKey` hashes. */
  function UpdateKeyPreimage(i: UpdateKeyInput): string {
    "alert-update:v1|" + (Part("priorAlertRef", i.prior) + ("|updateKind=" + (KindText(i.kind) + (['|'] +
      ("fingerprint=" + (i.fingerprint + ("|thesisVersion=" + Decimal(i.thesisVersion))))))))
  }

  lemma TextOfKind(k: UpdateKind)
    ensures var s := KindText(k);
            '|' !in s && k == if |s| == 22 then MaterialDeterioration else if |s| == 12 then Cancellation else if |s| == 6 then Expiry else Risk
  {
  }

  /** The update key's preimage determines prior alert, kind, content address and thesis version. */
  lemma UpdateKeyIsInjective(a: UpdateKeyInput, b: UpdateKeyInput)
    requires IsContentAddress(a.fingerprint) && IsContentAddress(b.fingerprint)
    ensures UpdateKeyPreimage(a) == UpdateKeyPreimage(b) <==> a == b
  {
    if UpdateKeyPreimage(a) == UpdateKeyPreimage(b) {
      var va, vb := "|thesisVersion=" + Decimal(a.thesisVersion), "|thesisVersion=" + Decimal(b.thesisVersion);
      var fa, fb := "fingerprint=" + (a.fingerprint + va), "fingerprint=" + (b.fingerprint + vb);
      var ka, kb := KindText(a.kind) + (['|'] + fa), KindText(b.kind) + (['|'] + fb);
      Cancel("alert-update:v1|", Part("priorAlertRef", a.prior) + ("|updateKind=" + ka), Part("priorAlertRef", b.prior) + ("|updateKind=" + kb));
      PartUnique("priorAlertRef", a.prior, b.prior, "|updateKind=" + ka, "|updateKind=" + kb);
      Cancel("|updateKind=", ka, kb);
      TextOfKind(a.kind);
      TextOfKind(b.kind);
      UpTo(KindText(a.kind), KindText(b.kind), '|', fa, fb);
      Cancel("fingerprint=", a.fingerprint + va, b.fingerprint + vb);
      SplitAt(a.fingerprint, b.fingerprint, va, vb);
      Cancel("|thesisVersion=", Decimal(a.thesisVersion), Decimal(b.thesisVersion));
      DecimalIsInjective(a.thesisVersion, b.thesisVersion);
    }
  }
}
