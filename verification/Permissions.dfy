/** Choosing a pinUvAuthToken flow (authenticator/preflight.go:44-55, 191-475, protocol/helpers.go:113-143),
    section 6.5.5.7 of CTAP 2.3. */
module Permissions {
  import opened Bytes

  type Permission = bv8

  const NONE: Permission := 0x00
  const MC: Permission := 0x01
  const GA: Permission := 0x02
  const CM: Permission := 0x04
  const BE: Permission := 0x08
  const LBW: Permission := 0x10
  const ACFG: Permission := 0x20
  const PCMR: Permission := 0x40

  datatype Version = FIDO_2_0 | FIDO_2_1_PRE | FIDO_2_1 | FIDO_2_3 | U2F_V2 | OtherVersion(name: string)

  datatype OptionId =
    | ClientPin | Uv | UvToken | PinUvAuthToken | NoMcGaWithClientPin | LargeBlobs | BioEnroll | UserVerificationMgmtPreview
    | UvBioEnroll | AuthnrCfg | UvAcfg | CredMgmt | PerCredMgmtRO | CredMgmtPreview | OtherOption(name: string)

  datatype Info = Info(versions: seq<Version>, options: map<OptionId, bool>, pinUvAuthProtocols: seq<nat>)

  datatype FlowError =
    | ZeroPermission | PcmrCombined | OptionUnsupported(id: OptionId) | PinNotSet | UvNotConfigured
    | McGaNotAllowed | PermissionUnsupported(bit: Permission) | NotGrantedByLegacyToken | ProtocolOneRequired | RpIdRequired

  datatype PinFlow = PinLegacy | PinWithPermissions
  datatype UvFlow = UvPreview | UvWithPermissions

  predicate On(info: Info, id: OptionId) {
    id in info.options && info.options[id]
  }

  // ----------------------------------------------------------------------- versions

  predicate Fido20Only(versions: seq<Version>) {
    FIDO_2_0 in versions && forall v :: v in versions ==> v == FIDO_2_0 || v == U2F_V2
  }

  predicate PreviewOnly(versions: seq<Version>) {
    FIDO_2_0 in versions && FIDO_2_1_PRE in versions && FIDO_2_1 !in versions && FIDO_2_3 !in versions
  }

  method Supports(versions: seq<Version>, version: Version) returns (r: bool)
    ensures r <==> version in versions
  {
    for i := 0 to |versions|
      invariant version !in versions[..i]
    {
      if versions[i] == version {
        return true;
      }
    }
    return false;
  }

  method IsPreviewOnly(versions: seq<Version>) returns (r: bool)
    ensures r <==> PreviewOnly(versions)
  {
    var fidoTwo, fidoTwoOnePre, fidoTwoOne, fidoTwoThree := false, false, false, false;
    for i := 0 to |versions|
      invariant fidoTwo <==> FIDO_2_0 in versions[..i]
      invariant fidoTwoOnePre <==> FIDO_2_1_PRE in versions[..i]
      invariant fidoTwoOne <==> FIDO_2_1 in versions[..i]
      invariant fidoTwoThree <==> FIDO_2_3 in versions[..i]
    {
      assert versions[..i + 1] == versions[..i] + [versions[i]];
      match versions[i]
      case FIDO_2_0 => fidoTwo := true;
      case FIDO_2_1_PRE => fidoTwoOnePre := true;
      case FIDO_2_1 => fidoTwoOne := true;
      case FIDO_2_3 => fidoTwoThree := true;
      case _ =>
    }
    assert versions[..|versions|] == versions;
    return fidoTwo && !fidoTwoOne && !fidoTwoThree && fidoTwoOnePre;
  }

  method IsFido20Only(versions: seq<Version>) returns (r: bool)
    ensures r <==> Fido20Only(versions)
  {
    var fido20Only := Supports(versions, FIDO_2_0);
    for i := 0 to |versions|
      invariant forall k :: 0 <= k < i ==> versions[k] == FIDO_2_0 || versions[k] == U2F_V2
    {
      if versions[i] != FIDO_2_0 && versions[i] != U2F_V2 {
        assert versions[i] in versions;
        return false;
      }
    }
    return fido20Only;
  }

  // -------------------------------------------------------------------------- modes

  function BioEnrollmentMode(info: Info): Result<bool, FlowError> {
    var option := if PreviewOnly(info.versions) then UserVerificationMgmtPreview else BioEnroll;
    if option in info.options then Success(PreviewOnly(info.versions)) else Failure(OptionUnsupported(option))
  }

  function CredentialManagementMode(info: Info): Result<bool, FlowError> {
    var option := if PreviewOnly(info.versions) then CredMgmtPreview else CredMgmt;
    if On(info, option) then Success(PreviewOnly(info.versions)) else Failure(OptionUnsupported(option))
  }

  // --------------------------------------------------------------- what is acceptable

  predicate Asks(p: Permission, bits: Permission) {
    p & bits != 0
  }

  /** A well-formed permission set: pcmr only on its own. */
  predicate WellFormed(p: Permission) {
    p != NONE && (Asks(p, PCMR) ==> p == PCMR)
  }

  predicate PermissionedTokens(info: Info) {
    !Fido20Only(info.versions) && On(info, PinUvAuthToken)
  }

  predicate AsksPreview(info: Info, p: Permission) {
    PreviewOnly(info.versions) && Asks(p, CM | BE)
  }

  predicate PinLegacyNeeded(info: Info, p: Permission) {
    !PermissionedTokens(info) || AsksPreview(info, p)
  }

  /** What the legacy PIN token grants: mc and ga, and on preview devices cm and be. */
  predicate LegacyGrants(info: Info, p: Permission) {
    if PreviewOnly(info.versions) then p & !(MC | GA | CM | BE) == 0 else p & !(MC | GA) == 0
  }

  /** The feature each permission needs for a token obtained with a PIN. */
  predicate PinFeatures(info: Info, p: Permission) {
    && (Asks(p, MC | GA) ==> !On(info, NoMcGaWithClientPin))
    && (Asks(p, CM) ==> CredentialManagementMode(info).Success?)
    && (Asks(p, BE) ==> BioEnrollmentMode(info).Success?)
    && (Asks(p, LBW) ==> On(info, LargeBlobs))
    && (Asks(p, ACFG) ==> On(info, AuthnrCfg))
    && (Asks(p, PCMR) ==> On(info, PerCredMgmtRO))
  }

  predicate RpIdGiven(p: Permission, rpId: string) {
    Asks(p, MC | GA) ==> rpId != ""
  }

  predicate PinAccepts(info: Info, p: Permission, rpId: string) {
    && (WellFormed(p) || (p == NONE && Fido20Only(info.versions)))
    && On(info, ClientPin) && PinFeatures(info, p)
    && (if PinLegacyNeeded(info, p) then LegacyGrants(info, p) else RpIdGiven(p, rpId))
  }

  predicate UvPreviewFlow(info: Info) {
    PreviewOnly(info.versions) && On(info, UvToken)
  }

  predicate UvFeatures(info: Info, p: Permission) {
    && (Asks(p, CM) ==> On(info, CredMgmt))
    && (Asks(p, BE) ==> BioEnroll in info.options && On(info, UvBioEnroll))
    && (Asks(p, LBW) ==> On(info, LargeBlobs))
    && (Asks(p, ACFG) ==> On(info, AuthnrCfg) && On(info, UvAcfg))
    && (Asks(p, PCMR) ==> On(info, PerCredMgmtRO))
  }

  predicate UvPreviewAccepts(info: Info, p: Permission) {
    && (info.pinUvAuthProtocols == [] || 1 in info.pinUvAuthProtocols)
    && (Asks(p, CM) ==> CredentialManagementMode(info).Success?)
    && (Asks(p, BE) ==> BioEnrollmentMode(info).Success?)
    && p & !(MC | GA | CM | BE) == 0
  }

  predicate UvAccepts(info: Info, p: Permission, rpId: string) {
    && WellFormed(p) && On(info, Uv)
    && (if UvPreviewFlow(info) then UvPreviewAccepts(info, p)
        else PermissionedTokens(info) && UvFeatures(info, p) && RpIdGiven(p, rpId))
  }

  // --------------------------------------------------------------------- the selectors

  method ValidatePermissionSet(p: Permission) returns (error: Option<FlowError>)
    ensures error.None? <==> WellFormed(p)
    ensures error == Some(ZeroPermission) <==> p == NONE
    ensures error.Some? ==> error.value == ZeroPermission || error.value == PcmrCombined
  {
    if p == NONE {
      return Some(ZeroPermission);
    }
    if p & PCMR != 0 && p != PCMR {
      return Some(PcmrCombined);
    }
    return None;
  }

  /** The first n checks of a request for a PIN token find nothing wrong. */
  ghost predicate PinPasses(info: Info, p: Permission, n: nat) {
    && (n > 0 ==> WellFormed(p) || (p == NONE && Fido20Only(info.versions)))
    && (n > 1 ==> ClientPin in info.options)
    && (n > 2 ==> On(info, ClientPin))
    && (n > 3 && Asks(p, MC | GA) ==> !On(info, NoMcGaWithClientPin))
    && (n > 4 && Asks(p, CM) ==> CredentialManagementMode(info).Success?)
    && (n > 5 && Asks(p, BE) ==> BioEnrollmentMode(info).Success?)
    && (n > 6 && Asks(p, LBW) ==> On(info, LargeBlobs))
    && (n > 7 && Asks(p, ACFG) ==> On(info, AuthnrCfg))
    && (n > 8 && Asks(p, PCMR) ==> On(info, PerCredMgmtRO))
  }

  /** What each rejection of a PIN token says about the request and the device: the check that fails and
      that those before it do not. */
  ghost predicate PinErrorJustified(info: Info, p: Permission, rpId: string, error: FlowError) {
    match error
    case ZeroPermission => p == NONE && !Fido20Only(info.versions)
    case PcmrCombined => Asks(p, PCMR) && p != PCMR
    case OptionUnsupported(id) =>
      || (id == ClientPin && id !in info.options && PinPasses(info, p, 1))
      || (id == CredMgmtPreview && PinPasses(info, p, 4) && Asks(p, CM) && PreviewOnly(info.versions) && !On(info, id))
      || (id == UserVerificationMgmtPreview && PinPasses(info, p, 5) && Asks(p, BE) && PreviewOnly(info.versions)
          && id !in info.options)
    case PinNotSet => PinPasses(info, p, 2) && !On(info, ClientPin)
    case McGaNotAllowed => PinPasses(info, p, 3) && On(info, NoMcGaWithClientPin) && Asks(p, MC | GA)
    case PermissionUnsupported(bit) =>
      || (bit == CM && PinPasses(info, p, 4) && Asks(p, CM) && !PreviewOnly(info.versions) && !On(info, CredMgmt))
      || (bit == BE && PinPasses(info, p, 5) && Asks(p, BE) && !PreviewOnly(info.versions) && BioEnroll !in info.options)
      || (bit == LBW && PinPasses(info, p, 6) && Asks(p, LBW) && !On(info, LargeBlobs))
      || (bit == ACFG && PinPasses(info, p, 7) && Asks(p, ACFG) && !On(info, AuthnrCfg))
      || (bit == PCMR && PinPasses(info, p, 8) && Asks(p, PCMR) && !On(info, PerCredMgmtRO))
    case NotGrantedByLegacyToken => PinPasses(info, p, 9) && PinLegacyNeeded(info, p) && !LegacyGrants(info, p)
    case RpIdRequired => PinPasses(info, p, 9) && !PinLegacyNeeded(info, p) && Asks(p, MC | GA) && rpId == ""
    case _ => false
  }

  method SelectPinTokenFlowUsingPin(info: Info, p: Permission, rpId: string) returns (r: Result<PinFlow, FlowError>)
    ensures r.Success? <==> PinAccepts(info, p, rpId)
    ensures r.Success? ==> r.value == if PinLegacyNeeded(info, p) then PinLegacy else PinWithPermissions
    ensures r.Failure? ==> PinErrorJustified(info, p, rpId, r.error)
  {
    var fido20Only := IsFido20Only(info.versions);
    if !fido20Only || p != NONE {
      var error := ValidatePermissionSet(p);
      if error.Some? {
        return Failure(error.value);
      }
    }
    if ClientPin !in info.options {
      return Failure(OptionUnsupported(ClientPin));
    }
    if !info.options[ClientPin] {
      return Failure(PinNotSet);
    }
    if On(info, NoMcGaWithClientPin) && p & (MC | GA) != 0 {
      return Failure(McGaNotAllowed);
    }
    var previewOnly := IsPreviewOnly(info.versions);
    var preview := NONE;
    if p & CM != 0 {
      if previewOnly {
        var mode := CredentialManagementMode(info);
        if mode.Failure? {
          return Failure(mode.error);
        }
        preview := preview | CM;
      } else if !On(info, CredMgmt) {
        return Failure(PermissionUnsupported(CM));
      }
    }
    if p & BE != 0 {
      if previewOnly {
        var mode := BioEnrollmentMode(info);
        if mode.Failure? {
          return Failure(mode.error);
        }
        preview := preview | BE;
      } else if BioEnroll !in info.options {
        return Failure(PermissionUnsupported(BE));
      }
    }
    if p & LBW != 0 && !On(info, LargeBlobs) {
      return Failure(PermissionUnsupported(LBW));
    }
    if p & ACFG != 0 && !On(info, AuthnrCfg) {
      return Failure(PermissionUnsupported(ACFG));
    }
    if p & PCMR != 0 && !On(info, PerCredMgmtRO) {
      return Failure(PermissionUnsupported(PCMR));
    }
    PreviewMask(info, p, preview);
    if !PermissionedTokens(info) || preview != NONE {
      var legacy := MC | GA | preview;
      if p & !legacy != 0 {
        return Failure(NotGrantedByLegacyToken);
      }
      return Success(PinLegacy);
    }
    if p & (MC | GA) != 0 && rpId == "" {
      return Failure(RpIdRequired);
    }
    return Success(PinWithPermissions);
  }

  /** The accumulated mask holds exactly the preview permissions asked for. */
  lemma PreviewMask(info: Info, p: Permission, preview: Permission)
    requires preview == if PreviewOnly(info.versions) then p & (CM | BE) else NONE
    ensures preview != NONE <==> AsksPreview(info, p)
    ensures p & !(MC | GA | preview) == 0 <==> LegacyGrants(info, p)
  {}

  /** The first n checks of a request for a token for built-in verification find nothing wrong. */
  ghost predicate UvPasses(info: Info, p: Permission, n: nat) {
    && (n > 0 ==> WellFormed(p))
    && (n > 1 ==> Uv in info.options)
    && (n > 2 ==> On(info, Uv))
    && (n > 3 ==> if UvPreviewFlow(info) then info.pinUvAuthProtocols == [] || 1 in info.pinUvAuthProtocols else PermissionedTokens(info))
    && (n > 4 && Asks(p, CM) ==> if UvPreviewFlow(info) then On(info, CredMgmtPreview) else On(info, CredMgmt))
    && (n > 5 && Asks(p, BE) ==>
          if UvPreviewFlow(info) then UserVerificationMgmtPreview in info.options
          else BioEnroll in info.options && On(info, UvBioEnroll))
    && (n > 6 && Asks(p, LBW) ==> On(info, LargeBlobs))
    && (n > 7 && Asks(p, ACFG) ==> On(info, AuthnrCfg) && On(info, UvAcfg))
    && (n > 8 && Asks(p, PCMR) ==> On(info, PerCredMgmtRO))
  }

  /** What each rejection of a token for built-in verification says about the request and the device: the
      check that fails and that those before it do not. */
  ghost predicate UvErrorJustified(info: Info, p: Permission, rpId: string, error: FlowError) {
    match error
    case ZeroPermission => p == NONE
    case PcmrCombined => Asks(p, PCMR) && p != PCMR
    case UvNotConfigured => UvPasses(info, p, 2) && !On(info, Uv)
    case OptionUnsupported(id) =>
      || (id == Uv && UvPasses(info, p, 1) && id !in info.options)
      || (id == PinUvAuthToken && UvPasses(info, p, 3) && !UvPreviewFlow(info) && !PermissionedTokens(info))
      || (id == CredMgmtPreview && UvPasses(info, p, 4) && UvPreviewFlow(info) && Asks(p, CM) && !On(info, id))
      || (id == UserVerificationMgmtPreview && UvPasses(info, p, 5) && UvPreviewFlow(info) && Asks(p, BE) && id !in info.options)
    case ProtocolOneRequired =>
      UvPasses(info, p, 3) && UvPreviewFlow(info) && info.pinUvAuthProtocols != [] && 1 !in info.pinUvAuthProtocols
    case PermissionUnsupported(bit) =>
      && !UvPreviewFlow(info) && Asks(p, bit)
      && (|| (bit == CM && UvPasses(info, p, 4) && !On(info, CredMgmt))
          || (bit == BE && UvPasses(info, p, 5) && !(BioEnroll in info.options && On(info, UvBioEnroll)))
          || (bit == LBW && UvPasses(info, p, 6) && !On(info, LargeBlobs))
          || (bit == ACFG && UvPasses(info, p, 7) && !(On(info, AuthnrCfg) && On(info, UvAcfg)))
          || (bit == PCMR && UvPasses(info, p, 8) && !On(info, PerCredMgmtRO)))
    case NotGrantedByLegacyToken => UvPasses(info, p, 6) && UvPreviewFlow(info) && p & !(MC | GA | CM | BE) != 0
    case RpIdRequired => UvPasses(info, p, 9) && !UvPreviewFlow(info) && Asks(p, MC | GA) && rpId == ""
    case _ => false
  }

  method SelectPinUvAuthTokenFlowUsingUv(info: Info, p: Permission, rpId: string) returns (r: Result<UvFlow, FlowError>)
    ensures r.Success? <==> UvAccepts(info, p, rpId)
    ensures r.Success? ==> r.value == if UvPreviewFlow(info) then UvPreview else UvWithPermissions
    ensures r.Failure? ==> UvErrorJustified(info, p, rpId, r.error)
  {
    var error := ValidatePermissionSet(p);
    if error.Some? {
      return Failure(error.value);
    }
    if Uv !in info.options {
      return Failure(OptionUnsupported(Uv));
    }
    if !info.options[Uv] {
      return Failure(UvNotConfigured);
    }
    var previewOnly := IsPreviewOnly(info.versions);
    if previewOnly && On(info, UvToken) {
      if |info.pinUvAuthProtocols| != 0 && 1 !in info.pinUvAuthProtocols {
        return Failure(ProtocolOneRequired);
      }
      var legacy := MC | GA;
      if p & CM != 0 {
        var mode := CredentialManagementMode(info);
        if mode.Failure? {
          return Failure(mode.error);
        }
        legacy := legacy | CM;
      }
      if p & BE != 0 {
        var mode := BioEnrollmentMode(info);
        if mode.Failure? {
          return Failure(mode.error);
        }
        legacy := legacy | BE;
      }
      UvMask(p, legacy);
      if p & !legacy != 0 {
        return Failure(NotGrantedByLegacyToken);
      }
      return Success(UvPreview);
    }
    if !PermissionedTokens(info) {
      return Failure(OptionUnsupported(PinUvAuthToken));
    }
    if p & CM != 0 && !On(info, CredMgmt) {
      return Failure(PermissionUnsupported(CM));
    }
    if p & BE != 0 && (BioEnroll !in info.options || !On(info, UvBioEnroll)) {
      return Failure(PermissionUnsupported(BE));
    }
    if p & LBW != 0 && !On(info, LargeBlobs) {
      return Failure(PermissionUnsupported(LBW));
    }
    if p & ACFG != 0 && (!On(info, AuthnrCfg) || !On(info, UvAcfg)) {
      return Failure(PermissionUnsupported(ACFG));
    }
    if p & PCMR != 0 && !On(info, PerCredMgmtRO) {
      return Failure(PermissionUnsupported(PCMR));
    }
    if p & (MC | GA) != 0 && rpId == "" {
      return Failure(RpIdRequired);
    }
    return Success(UvWithPermissions);
  }

  lemma UvMask(p: Permission, legacy: Permission)
    requires legacy == MC | GA | (p & (CM | BE))
    ensures p & !legacy == 0 <==> p & !(MC | GA | CM | BE) == 0
  {}

  // --------------------------------------------------- the tables, bit by bit and option by option

  /** The device reports the option as true. */
  ghost predicate Reports(info: Info, id: OptionId) {
    (id, true) in info.options.Items
  }

  /** A CTAP 2.1 preview device: 2.0 and the 2.1 preview, and neither 2.1 nor 2.3. */
  ghost predicate IsPreview(info: Info) {
    {FIDO_2_0, FIDO_2_1_PRE} <= (set v | v in info.versions) && {FIDO_2_1, FIDO_2_3} !! (set v | v in info.versions)
  }

  /** FIDO_2_0, with or without U2F_V2, and nothing newer. */
  ghost predicate IsFido20(info: Info) {
    {FIDO_2_0} <= (set v | v in info.versions) <= {FIDO_2_0, U2F_V2}
  }

  lemma OnIsReported(info: Info, id: OptionId)
    ensures On(info, id) <==> Reports(info, id)
  {}

  lemma VersionsAre(info: Info)
    ensures PreviewOnly(info.versions) <==> IsPreview(info)
    ensures Fido20Only(info.versions) <==> IsFido20(info)
  {
    var s := set v | v in info.versions;
    if Fido20Only(info.versions) {
      forall v | v in s ensures v in {FIDO_2_0, U2F_V2} {}
    }
    if IsFido20(info) {
      assert FIDO_2_0 in s;
      forall v | v in info.versions ensures v == FIDO_2_0 || v == U2F_V2 {
        assert v in s;
      }
    }
    if IsPreview(info) {
      assert FIDO_2_0 in s && FIDO_2_1_PRE in s && FIDO_2_1 !in s && FIDO_2_3 !in s;
    }
  }

  /** Which mode the credential management and the bio enrollment commands have on a device. */
  lemma ModesExact(info: Info)
    ensures CredentialManagementMode(info) ==
            if IsPreview(info) then
              if Reports(info, CredMgmtPreview) then Success(true) else Failure(OptionUnsupported(CredMgmtPreview))
            else if Reports(info, CredMgmt) then Success(false) else Failure(OptionUnsupported(CredMgmt))
    ensures BioEnrollmentMode(info) ==
            if IsPreview(info) then
              if UserVerificationMgmtPreview in info.options.Keys then Success(true)
              else Failure(OptionUnsupported(UserVerificationMgmtPreview))
            else if BioEnroll in info.options.Keys then Success(false) else Failure(OptionUnsupported(BioEnroll))
  {
    VersionsAre(info);
  }

  /** Without a true pinUvAuthToken, and on a device of CTAP 2.0 only, a PIN gets the legacy token;
      so does cm (0x04) or be (0x08) on a preview device. */
  lemma LegacyNeededExactly(info: Info, p: Permission)
    ensures PinLegacyNeeded(info, p) <==>
            !Reports(info, PinUvAuthToken) || IsFido20(info) || (IsPreview(info) && p & 0x0C != 0)
  {
    VersionsAre(info);
    OnIsReported(info, PinUvAuthToken);
    assert CM | BE == 0x0C;
  }

  /** A device that does not report pinUvAuthToken as true, or speaks CTAP 2.0 only, has no permissioned
      tokens: a PIN gets the legacy one, for nothing beyond mc and ga (0x03) or, on a preview device, cm
      and be; built-in verification gets one only from the preview flow. */
  lemma NoPermissionedTokens(info: Info, p: Permission, rpId: string)
    requires (PinUvAuthToken, true) !in info.options.Items
             || (FIDO_2_0 in info.versions && forall v :: v in info.versions ==> v in {FIDO_2_0, U2F_V2})
    ensures PinLegacyNeeded(info, p)
    ensures PinAccepts(info, p, rpId) ==> p & 0xF0 == 0 && (FIDO_2_1_PRE !in info.versions ==> p & 0x0C == 0)
    ensures UvAccepts(info, p, rpId) ==>
              UvPreviewFlow(info) && FIDO_2_1_PRE in info.versions && (UvToken, true) in info.options.Items && p & 0xF0 == 0
  {
    LegacyNeededExactly(info, p);
    VersionsAre(info);
    OnIsReported(info, UvToken);
    assert !(MC | GA | CM | BE) == 0xF0 && !(MC | GA) == 0xFC;
  }

  ghost predicate PinNeeds(info: Info, p: Permission) {
    && Reports(info, ClientPin)
    && (p & 0x03 != 0 ==> !Reports(info, NoMcGaWithClientPin))
    && (p & 0x04 != 0 ==> Reports(info, if IsPreview(info) then CredMgmtPreview else CredMgmt))
    && (p & 0x08 != 0 ==> (if IsPreview(info) then UserVerificationMgmtPreview else BioEnroll) in info.options.Keys)
    && (p & 0x10 != 0 ==> Reports(info, LargeBlobs))
    && (p & 0x20 != 0 ==> Reports(info, AuthnrCfg))
    && (p & 0x40 != 0 ==> Reports(info, PerCredMgmtRO))
  }

  /** The PIN selector as a table: a set is granted exactly when every bit's option is there, pcmr
      (0x40) is alone, and the legacy token or the RP ID covers it. */
  lemma PinTable(info: Info, p: Permission, rpId: string)
    ensures PinAccepts(info, p, rpId) <==>
            && PinNeeds(info, p)
            && (p == 0 ==> IsFido20(info)) && (p & 0x40 != 0 ==> p == 0x40)
            && (if !Reports(info, PinUvAuthToken) || IsFido20(info) || (IsPreview(info) && p & 0x0C != 0)
                then p & (if IsPreview(info) then 0xF0 else 0xFC) == 0
                else p & 0x03 != 0 ==> |rpId| > 0)
  {
    VersionsAre(info);
    LegacyNeededExactly(info, p);
    ModesExact(info);
    forall id ensures On(info, id) <==> Reports(info, id) {
      OnIsReported(info, id);
    }
    assert MC | GA == 0x03 && !(MC | GA | CM | BE) == 0xF0 && !(MC | GA) == 0xFC;
  }

  ghost predicate UvNeeds(info: Info, p: Permission) {
    && (p & 0x04 != 0 ==> Reports(info, CredMgmt))
    && (p & 0x08 != 0 ==> BioEnroll in info.options.Keys && Reports(info, UvBioEnroll))
    && (p & 0x10 != 0 ==> Reports(info, LargeBlobs))
    && (p & 0x20 != 0 ==> Reports(info, AuthnrCfg) && Reports(info, UvAcfg))
    && (p & 0x40 != 0 ==> Reports(info, PerCredMgmtRO))
  }

  /** The selector for built-in verification as a table. */
  lemma UvTable(info: Info, p: Permission, rpId: string)
    ensures UvPreviewFlow(info) <==> IsPreview(info) && Reports(info, UvToken)
    ensures UvAccepts(info, p, rpId) <==>
            && Reports(info, Uv) && p != 0 && (p & 0x40 != 0 ==> p == 0x40)
            && (if IsPreview(info) && Reports(info, UvToken) then
                  && (info.pinUvAuthProtocols == [] || 1 in info.pinUvAuthProtocols) && p & 0xF0 == 0
                  && (p & 0x04 != 0 ==> Reports(info, CredMgmtPreview))
                  && (p & 0x08 != 0 ==> UserVerificationMgmtPreview in info.options.Keys)
                else
                  && Reports(info, PinUvAuthToken) && !IsFido20(info) && UvNeeds(info, p)
                  && (p & 0x03 != 0 ==> |rpId| > 0))
  {
    VersionsAre(info);
    ModesExact(info);
    forall id ensures On(info, id) <==> Reports(info, id) {
      OnIsReported(info, id);
    }
    assert MC | GA == 0x03 && !(MC | GA | CM | BE) == 0xF0;
  }

  // ------------------------------------------------------------------------ coherence

  predicate Subset(q: Permission, p: Permission) {
    q & !p == 0
  }

  /** Fewer permissions are never harder to get with a PIN, when an RP ID is given or mc and ga are
      not asked for on their own after a preview permission excused the RP ID. */
  lemma PinAcceptsSubsets(info: Info, p: Permission, q: Permission, rpId: string)
    requires PinAccepts(info, p, rpId) && Subset(q, p) && q != NONE
    requires rpId != "" || !RpIdExcused(info, p)
    ensures PinAccepts(info, q, rpId)
  {}

  /** mc or ga together with a preview permission on a device with permissioned tokens: the whole set
      goes through the legacy flow, which asks for no RP ID, though mc or ga alone would not. */
  predicate RpIdExcused(info: Info, p: Permission) {
    PermissionedTokens(info) && AsksPreview(info, p) && Asks(p, MC | GA)
  }

  /** An accepted set is closed under non-empty subsets exactly when an RP ID is given or needed by
      no part of it. */
  lemma PinClosedUnderSubsets(info: Info, p: Permission, rpId: string)
    requires PinAccepts(info, p, rpId)
    ensures (forall q :: Subset(q, p) && q != NONE ==> PinAccepts(info, q, rpId)) <==> rpId != "" || !RpIdExcused(info, p)
  {
    if rpId != "" || !RpIdExcused(info, p) {
      forall q | Subset(q, p) && q != NONE ensures PinAccepts(info, q, rpId) {
        PinAcceptsSubsets(info, p, q, rpId);
      }
    } else {
      var q := p & (MC | GA);
      assert !PinAccepts(info, q, rpId);
    }
  }

  /** A device on which an accepted set has a rejected part, when no RP ID is given. */
  lemma PinSubsetRejectedWithoutRpId()
    ensures exists info, p, q :: PinAccepts(info, p, "") && Subset(q, p) && q != NONE && !PinAccepts(info, q, "")
  {
    var versions := [FIDO_2_0, FIDO_2_1_PRE];
    assert versions[0] == FIDO_2_0 && versions[1] == FIDO_2_1_PRE;
    var info := Info(versions, map[ClientPin := true, PinUvAuthToken := true, CredMgmtPreview := true], []);
    assert PreviewOnly(info.versions) && !Fido20Only(info.versions);
    var p: Permission, q: Permission := MC | CM, MC;
    assert PinAccepts(info, p, "") && Subset(q, p) && q != NONE && !PinAccepts(info, q, "");
  }

  /** Fewer permissions are never harder to get with built-in user verification, with or without RP ID. */
  lemma UvAcceptsSubsets(info: Info, p: Permission, q: Permission, rpId: string)
    requires UvAccepts(info, p, rpId) && Subset(q, p) && q != NONE
    ensures UvAccepts(info, q, rpId)
  {}

  /** A token obtained with a PIN for cm or be can be used: the mode of the command exists on the same
      device, and a preview mode always comes with the legacy token it needs. */
  lemma PinGrantsUsableModes(info: Info, p: Permission, rpId: string)
    requires PinAccepts(info, p, rpId)
    ensures Asks(p, CM) ==> CredentialManagementMode(info).Success?
                            && (CredentialManagementMode(info).value ==> PinLegacyNeeded(info, p))
    ensures Asks(p, BE) ==> BioEnrollmentMode(info).Success?
                            && (BioEnrollmentMode(info).value ==> PinLegacyNeeded(info, p))
  {}
}
