/** The Amalgafy Seal of `src/core/signer.rs`: payload, canonical bytes, detached signature and the
    re-derivation check of `verify`. Ed25519 (section 5.1 of RFC 8032) is abstract. */
module Seal {
  import opened Saturating
  import opened SamplingLoop
  import opened StableSort
  import opened Json
  import JsonText
  import opened Utf8

  datatype IdentitySource =
    MacosIoKitSerial | LinuxMachineId | LinuxGpuUuid | WindowsNvmlUuid | WindowsNvmlSerial | Manual | Synthetic

  datatype HardwareIdentity = HardwareIdentity(fingerprint: string, source: IdentitySource)

  datatype Payload = Payload(
    manifestVersion: u32, hardwareSerial: string, hardwareIdentity: HardwareIdentity,
    sealedAtUnixNs: u64, totalMicroJoules: u64, attributions: seq<PidEnergyAttribution>)

  // -------------------------------------------------------------------------- the payload as JSON data

  /** The snake-case variant names. */
  function SourceName(source: IdentitySource): string {
    match source
    case MacosIoKitSerial => "macos_io_kit_serial"
    case LinuxMachineId => "linux_machine_id"
    case LinuxGpuUuid => "linux_gpu_uuid"
    case WindowsNvmlUuid => "windows_nvml_uuid"
    case WindowsNvmlSerial => "windows_nvml_serial"
    case Manual => "manual"
    case Synthetic => "synthetic"
  }

  function IdentityValue(h: HardwareIdentity): Json {
    Obj([Field("fingerprint", Str(h.fingerprint)), Field("source", Str(SourceName(h.source)))])
  }

  function AttributionValue(a: PidEnergyAttribution): Json {
    Obj([Field("pid", Num(a.pid)),
         Field("window_start_ns", Num(a.windowStartNs)),
         Field("window_end_ns", Num(a.windowEndNs)),
         Field("burst_power_uw", Num(a.burstPowerUw)),
         Field("attributed_energy_uj", Num(a.attributedEnergyUj)),
         Field("hardware_signature", Str(a.hardwareSignature))])
  }

  function AttributionValues(xs: seq<PidEnergyAttribution>): seq<Json> {
    seq(|xs|, i requires 0 <= i < |xs| => AttributionValue(xs[i]))
  }

  function PayloadValue(p: Payload): Json {
    Obj([Field("manifest_version", Num(p.manifestVersion)),
         Field("hardware_serial", Str(p.hardwareSerial)),
         Field("hardware_identity", IdentityValue(p.hardwareIdentity)),
         Field("sealed_at_unix_ns", Num(p.sealedAtUnixNs)),
         Field("total_micro_joules", Num(p.totalMicroJoules)),
         Field("attributions", Arr(AttributionValues(p.attributions)))])
  }

  lemma SourceNameInjective(a: IdentitySource, b: IdentitySource)
    requires SourceName(a) == SourceName(b)
    ensures a == b
  {
    assert |SourceName(a)| == |SourceName(b)|;
    assert SourceName(a)[0] == SourceName(b)[0];
    assert SourceName(a)[1] == SourceName(b)[1];
  }

  lemma AttributionWellFormed(a: PidEnergyAttribution)
    ensures WellFormed(AttributionValue(a))
  {
    var f := AttributionValue(a).fields;
    assert f[1].key[7] == 's' && f[2].key[7] == 'e';
    assert f[0].key[0] == 'p' && f[1].key[0] == 'w' && f[2].key[0] == 'w' && f[3].key[0] == 'b' && f[4].key[0] == 'a' && f[5].key[0] == 'h';
  }

  lemma PayloadWellFormed(p: Payload)
    ensures WellFormed(PayloadValue(p))
  {
    var f := PayloadValue(p).fields;
    assert |f[0].key| == 16 && |f[1].key| == 15 && |f[2].key| == 17 && |f[3].key| == 17 && |f[4].key| == 18 && |f[5].key| == 12;
    assert f[2].key[0] == 'h' && f[3].key[0] == 's';
    var g := f[2].value.fields;
    assert |g[0].key| == 11 && |g[1].key| == 6;
    forall i | 0 <= i < |p.attributions| ensures WellFormed(f[5].value.items[i]) {
      AttributionWellFormed(p.attributions[i]);
    }
  }

  /** Fields of two equal objects under the same key. */
  lemma SameField(f: seq<Field>, g: seq<Field>, i: nat)
    requires Same(Obj(f), Obj(g)) && i < |f| && i < |g| && f[i].key == g[i].key
    ensures Same(f[i].value, g[i].value)
  {
  }

  lemma SameAttribution(a: PidEnergyAttribution, b: PidEnergyAttribution)
    requires Same(AttributionValue(a), AttributionValue(b))
    ensures a == b
  {
    var f, g := AttributionValue(a).fields, AttributionValue(b).fields;
    SameField(f, g, 0);
    SameField(f, g, 1);
    SameField(f, g, 2);
    SameField(f, g, 3);
    SameField(f, g, 4);
    SameField(f, g, 5);
  }

  lemma SameIdentity(a: HardwareIdentity, b: HardwareIdentity)
    requires Same(IdentityValue(a), IdentityValue(b))
    ensures a == b
  {
    var f, g := IdentityValue(a).fields, IdentityValue(b).fields;
    SameField(f, g, 0);
    SameField(f, g, 1);
    SourceNameInjective(a.source, b.source);
  }

  lemma SameAttributions(xs: seq<PidEnergyAttribution>, ys: seq<PidEnergyAttribution>)
    requires Same(Arr(AttributionValues(xs)), Arr(AttributionValues(ys)))
    ensures xs == ys
  {
    var x, y := AttributionValues(xs), AttributionValues(ys);
    assert |x| == |y|;
    forall i | 0 <= i < |xs| ensures xs[i] == ys[i] {
      assert Same(x[i], y[i]);
      SameAttribution(xs[i], ys[i]);
    }
  }

  /** Payloads that are the same JSON data are the same payload. */
  lemma SamePayload(p: Payload, q: Payload)
    requires Same(PayloadValue(p), PayloadValue(q))
    ensures p == q
  {
    var f, g := PayloadValue(p).fields, PayloadValue(q).fields;
    SameField(f, g, 0);
    SameField(f, g, 1);
    SameField(f, g, 2);
    SameField(f, g, 3);
    SameField(f, g, 4);
    SameField(f, g, 5);
    assert f[2].value == IdentityValue(p.hardwareIdentity) && g[2].value == IdentityValue(q.hardwareIdentity);
    SameIdentity(p.hardwareIdentity, q.hardwareIdentity);
    assert f[5].value == Arr(AttributionValues(p.attributions)) && g[5].value == Arr(AttributionValues(q.attributions));
    SameAttributions(p.attributions, q.attributions);
  }

  // ---------------------------------------------------------------------------------- canonical bytes

  function CanonicalJson(p: Payload): seq<byte> {
    Encode(JsonText.Print(Canon(PayloadValue(p))))
  }

  // ------------------------------------------------------------------ which value stands under which key

  /** A lookup in a list of fields with distinct keys. */
  lemma {:induction false} LookupAt(fields: seq<Field>, i: nat)
    requires DistinctKeys(fields) && i < |fields|
    ensures Lookup(fields, fields[i].key) == Found(fields[i].value)
    decreases i
  {
    if i > 0 {
      LookupAt(fields[1..], i - 1);
    }
  }

  /** What a reader of the canonical form finds under the key of a field. */
  lemma CanonLookupAt(v: Json, i: nat)
    requires v.Obj? && DistinctKeys(v.fields) && i < |v.fields|
    ensures Lookup(Canon(v).fields, v.fields[i].key) == Found(Canon(v.fields[i].value))
  {
    LookupAt(v.fields, i);
    LookupPreserved(v.fields, v.fields[i].key);
  }

  ghost predicate Shows(v: Json, key: string, value: Json) {
    v.Obj? && Lookup(v.fields, key) == Found(value)
  }

  /** The members of an attribution record. */
  ghost predicate ShowsAttribution(v: Json, a: PidEnergyAttribution) {
    && Shows(v, "pid", Num(a.pid))
    && Shows(v, "window_start_ns", Num(a.windowStartNs)) && Shows(v, "window_end_ns", Num(a.windowEndNs))
    && Shows(v, "burst_power_uw", Num(a.burstPowerUw)) && Shows(v, "attributed_energy_uj", Num(a.attributedEnergyUj))
    && Shows(v, "hardware_signature", Str(a.hardwareSignature))
  }

  ghost predicate ShowsSource(v: Json, source: IdentitySource) {
    match source
    case MacosIoKitSerial => Shows(v, "source", Str("macos_io_kit_serial"))
    case LinuxMachineId => Shows(v, "source", Str("linux_machine_id"))
    case LinuxGpuUuid => Shows(v, "source", Str("linux_gpu_uuid"))
    case WindowsNvmlUuid => Shows(v, "source", Str("windows_nvml_uuid"))
    case WindowsNvmlSerial => Shows(v, "source", Str("windows_nvml_serial"))
    case Manual => Shows(v, "source", Str("manual"))
    case Synthetic => Shows(v, "source", Str("synthetic"))
  }

  ghost predicate ShowsIdentity(v: Json, h: HardwareIdentity) {
    Shows(v, "fingerprint", Str(h.fingerprint)) && ShowsSource(v, h.source)
  }

  ghost predicate ShowsAttributions(v: Json, xs: seq<PidEnergyAttribution>) {
    v.Arr? && |v.items| == |xs| && forall i :: 0 <= i < |xs| ==> ShowsAttribution(v.items[i], xs[i])
  }

  /** Every datum of the payload stands under its own key, at every depth. */
  ghost predicate ShowsPayload(v: Json, p: Payload) {
    && Shows(v, "manifest_version", Num(p.manifestVersion))
    && Shows(v, "hardware_serial", Str(p.hardwareSerial))
    && Shows(v, "sealed_at_unix_ns", Num(p.sealedAtUnixNs))
    && Shows(v, "total_micro_joules", Num(p.totalMicroJoules))
    && (exists h :: Shows(v, "hardware_identity", h) && ShowsIdentity(h, p.hardwareIdentity))
    && (exists xs :: Shows(v, "attributions", xs) && ShowsAttributions(xs, p.attributions))
  }

  lemma AttributionShown(a: PidEnergyAttribution)
    ensures ShowsAttribution(Canon(AttributionValue(a)), a)
  {
    AttributionWellFormed(a);
    var v := AttributionValue(a);
    CanonLookupAt(v, 0);
    CanonLookupAt(v, 1);
    CanonLookupAt(v, 2);
    CanonLookupAt(v, 3);
    CanonLookupAt(v, 4);
    CanonLookupAt(v, 5);
  }

  lemma AttributionsShown(xs: seq<PidEnergyAttribution>)
    ensures ShowsAttributions(Canon(Arr(AttributionValues(xs))), xs)
  {
    var items := AttributionValues(xs);
    forall i | 0 <= i < |xs| ensures ShowsAttribution(CanonItems(items)[i], xs[i]) {
      CanonItemAt(items, i);
      AttributionShown(xs[i]);
    }
  }

  lemma IdentityShown(h: HardwareIdentity)
    ensures ShowsIdentity(Canon(IdentityValue(h)), h)
  {
    var v := IdentityValue(h);
    assert |v.fields[0].key| == 11 && |v.fields[1].key| == 6;
    CanonLookupAt(v, 0);
    CanonLookupAt(v, 1);
  }

  lemma PayloadShown(p: Payload)
    ensures ShowsPayload(Canon(PayloadValue(p)), p)
  {
    PayloadWellFormed(p);
    var v := PayloadValue(p);
    CanonLookupAt(v, 0);
    CanonLookupAt(v, 1);
    CanonLookupAt(v, 2);
    CanonLookupAt(v, 3);
    CanonLookupAt(v, 4);
    CanonLookupAt(v, 5);
    IdentityShown(p.hardwareIdentity);
    AttributionsShown(p.attributions);
  }

  /** The signed bytes are the text of a JSON object, and whoever parses it finds every datum of the
      payload under its own key: no two values can be exchanged. */
  lemma CanonicalJsonReads(p: Payload)
    ensures exists text, v ::
              CanonicalJson(p) == Encode(text) && JsonText.ParseValue(text) == JsonText.Parsed(v, []) && ShowsPayload(v, p)
  {
    var v := Canon(PayloadValue(p));
    JsonText.RoundTrip(v, []);
    assert JsonText.Print(v) + [] == JsonText.Print(v);
    PayloadShown(p);
  }

  /** The canonical bytes determine every field of the payload. */
  lemma CanonicalJsonInjective(p: Payload, q: Payload)
    requires CanonicalJson(p) == CanonicalJson(q)
    ensures p == q
  {
    var a, b := PayloadValue(p), PayloadValue(q);
    EncodeInjective(JsonText.Print(Canon(a)), JsonText.Print(Canon(b)));
    JsonText.PrintInjective(Canon(a), Canon(b));
    PayloadWellFormed(p);
    PayloadWellFormed(q);
    CanonDecidesSame(a, b);
    SamePayload(p, q);
  }

  // -------------------------------------------------------------------------------- signing, verifying

  type Key = seq<byte>

  /** An Ed25519 implementation: key derivation, acceptance of a public key, signing, checking. */
  datatype Scheme = Scheme(
    publicKey: Key -> seq<byte>,
    acceptsKey: seq<byte> -> bool,
    sign: (Key, seq<byte>) -> seq<byte>,
    check: (seq<byte>, seq<byte>, seq<byte>) -> bool)

  /** All that is assumed: derived keys are accepted, signatures have 64 bytes, and a signature made with
      a key checks under its public key. */
  ghost predicate Correct(e: Scheme) {
    && (forall k :: e.acceptsKey(e.publicKey(k)))
    && (forall k, m :: |e.sign(k, m)| == 64 && e.check(e.publicKey(k), m, e.sign(k, m)))
  }

  datatype SealRecord = SealRecord(
    payload: Payload, signingPublicKey: seq<byte>, signature: seq<byte>, canonicalPayload: seq<byte>)

  datatype Verdict = Verified | InvalidKey | InvalidSignatureLength | PayloadMismatch | SignatureRejected

  function Verify(e: Scheme, s: SealRecord): Verdict {
    if !e.acceptsKey(s.signingPublicKey) then InvalidKey
    else if |s.signature| != 64 then InvalidSignatureLength
    else if CanonicalJson(s.payload) != s.canonicalPayload then PayloadMismatch
    else if !e.check(s.signingPublicKey, s.canonicalPayload, s.signature) then SignatureRejected
    else Verified
  }

  /** The sort key: process, window start, window end. */
  predicate AttributionLe(a: PidEnergyAttribution, b: PidEnergyAttribution) {
    || a.pid < b.pid
    || (a.pid == b.pid && a.windowStartNs < b.windowStartNs)
    || (a.pid == b.pid && a.windowStartNs == b.windowStartNs && a.windowEndNs <= b.windowEndNs)
  }

  lemma AttributionOrder()
    ensures TotalPreorder(AttributionLe)
  {
  }

  /** The payload that `seal` signs; the wall clock is a parameter. */
  function SealedPayload(version: u32, xs: seq<PidEnergyAttribution>, serial: string, total: u64,
                         identity: HardwareIdentity, now: u64): Payload
  {
    Payload(version, serial, identity, now, total, Sort(AttributionLe, xs))
  }

  function SealPayload(e: Scheme, key: Key, p: Payload): SealRecord {
    SealRecord(p, e.publicKey(key), e.sign(key, CanonicalJson(p)), CanonicalJson(p))
  }

  /** Every freshly produced seal verifies. */
  lemma FreshSealVerifies(e: Scheme, key: Key, p: Payload)
    requires Correct(e)
    ensures Verify(e, SealPayload(e, key, p)) == Verified
  {
    assert e.acceptsKey(e.publicKey(key)) && |e.sign(key, CanonicalJson(p))| == 64;
  }

  /** A seal verifies if and only if its key is accepted, its signature has 64 bytes, its canonical bytes
      are those of its payload, and the signature checks over the bytes of that payload. */
  lemma VerifiedIff(e: Scheme, s: SealRecord)
    ensures Verify(e, s) == Verified <==>
            && e.acceptsKey(s.signingPublicKey)
            && |s.signature| == 64
            && CanonicalJson(s.payload) == s.canonicalPayload
            && e.check(s.signingPublicKey, CanonicalJson(s.payload), s.signature)
  {
  }

  /** Putting another signature or another key on a verified seal makes it pass again if and only if the
      scheme itself accepts it over the payload's bytes. */
  lemma ForgeryRejected(e: Scheme, s: SealRecord, signature: seq<byte>, key: seq<byte>)
    requires Verify(e, s) == Verified
    ensures Verify(e, s.(signature := signature)) == Verified
            <==> |signature| == 64 && e.check(s.signingPublicKey, CanonicalJson(s.payload), signature)
    ensures Verify(e, s.(signingPublicKey := key)) == Verified
            <==> e.acceptsKey(key) && e.check(key, CanonicalJson(s.payload), s.signature)
  {
    VerifiedIff(e, s);
    VerifiedIff(e, s.(signature := signature));
    VerifiedIff(e, s.(signingPublicKey := key));
  }

  /** Changing payload and canonical bytes together leaves a seal whose signature has to check over the
      new bytes, which are different bytes. */
  lemma ResealedNeedsSignature(e: Scheme, s: SealRecord, p: Payload)
    requires Verify(e, s) == Verified
    ensures var forged := s.(payload := p, canonicalPayload := CanonicalJson(p));
            && (Verify(e, forged) == Verified <==> e.check(s.signingPublicKey, CanonicalJson(p), s.signature))
            && (p != s.payload <==> CanonicalJson(p) != s.canonicalPayload)
  {
    VerifiedIff(e, s);
    VerifiedIff(e, s.(payload := p, canonicalPayload := CanonicalJson(p)));
    if CanonicalJson(p) == CanonicalJson(s.payload) {
      CanonicalJsonInjective(p, s.payload);
    }
  }

  /** A verified seal whose payload is replaced by any other one is rejected by the re-derivation check,
      whatever field differs. */
  lemma TamperedPayloadRejected(e: Scheme, s: SealRecord, p: Payload)
    requires Verify(e, s) == Verified
    ensures p != s.payload <==> Verify(e, s.(payload := p)) == PayloadMismatch
    ensures p == s.payload <==> Verify(e, s.(payload := p)) == Verified
  {
    if CanonicalJson(p) == CanonicalJson(s.payload) {
      CanonicalJsonInjective(p, s.payload);
    }
  }

  /** Verified seals with the same canonical bytes carry the same payload. */
  lemma VerifiedBytesFixPayload(e: Scheme, s: SealRecord, t: SealRecord)
    requires Verify(e, s) == Verified && Verify(e, t) == Verified && s.canonicalPayload == t.canonicalPayload
    ensures s.payload == t.payload
  {
    CanonicalJsonInjective(s.payload, t.payload);
  }

  // ------------------------------------------------------------------------------- order of attributions

  /** Ascending by process, then window start, then window end. */
  ghost predicate AscendingRecords(xs: seq<PidEnergyAttribution>) {
    forall i, j :: 0 <= i < j < |xs| ==>
      && xs[i].pid <= xs[j].pid
      && (xs[i].pid == xs[j].pid ==> xs[i].windowStartNs <= xs[j].windowStartNs)
      && (xs[i].pid == xs[j].pid && xs[i].windowStartNs == xs[j].windowStartNs ==> xs[i].windowEndNs <= xs[j].windowEndNs)
  }

  /** The sealed records are the given ones in ascending order of process, window start and window end. */
  lemma SealedAscending(xs: seq<PidEnergyAttribution>)
    ensures AscendingRecords(Sort(AttributionLe, xs)) && multiset(Sort(AttributionLe, xs)) == multiset(xs)
  {
    AttributionOrder();
    SortIsStable(AttributionLe, xs);
    SortPermutes(AttributionLe, xs);
  }

  /** Two orders of attributions seal to the same bytes, all else equal, if and only if they list the
      records of each (process, start, end) group in the same order. */
  lemma SealBytesEqualIff(version: u32, xs: seq<PidEnergyAttribution>, zs: seq<PidEnergyAttribution>, serial: string,
                          total: u64, identity: HardwareIdentity, now: u64)
    ensures CanonicalJson(SealedPayload(version, xs, serial, total, identity, now))
            == CanonicalJson(SealedPayload(version, zs, serial, total, identity, now))
            <==> TiesAlike(AttributionLe, xs, zs)
  {
    var p := SealedPayload(version, xs, serial, total, identity, now);
    var q := SealedPayload(version, zs, serial, total, identity, now);
    AttributionOrder();
    SortEqualIffTiesAlike(AttributionLe, xs, zs);
    if CanonicalJson(p) == CanonicalJson(q) {
      CanonicalJsonInjective(p, q);
    }
  }

  /** Handing the attributions over in any order gives the same sealed sequence exactly when records with
      equal (process, start, end) are identical. The documentation promises it unconditionally. */
  lemma SealOrderIndependentIff(xs: seq<PidEnergyAttribution>)
    ensures OrderIndependent(AttributionLe, xs) <==> TiesIdentical(AttributionLe, xs)
  {
    AttributionOrder();
    OrderIndependentIff(AttributionLe, xs);
  }

  /** Two records of one window that differ in energy seal differently when swapped. */
  lemma SealOrderCounterexample(serial: string, identity: HardwareIdentity, now: u64)
    ensures var a := PidEnergyAttribution(7, 100, 200, 0, 1, "gpu");
            var b := PidEnergyAttribution(7, 100, 200, 0, 2, "gpu");
            && multiset([a, b]) == multiset([b, a])
            && CanonicalJson(SealedPayload(1, [a, b], serial, 3, identity, now))
               != CanonicalJson(SealedPayload(1, [b, a], serial, 3, identity, now))
  {
    var a := PidEnergyAttribution(7, 100, 200, 0, 1, "gpu");
    var b := PidEnergyAttribution(7, 100, 200, 0, 2, "gpu");
    FirstTie(AttributionLe, [a, b], a);
    FirstTie(AttributionLe, [b, a], a);
    assert Ties(AttributionLe, [a, b], a) != Ties(AttributionLe, [b, a], a);
    SealBytesEqualIff(1, [a, b], [b, a], serial, 3, identity, now);
  }

  // ------------------------------------------------------------------------------------- seal as code

  lemma {:induction false} InsertSplit<T>(le: (T, T) -> bool, x: T, xs: seq<T>, k: nat)
    requires k <= |xs| && forall i :: 0 <= i < k ==> !le(x, xs[i])
    ensures Insert(le, x, xs) == xs[..k] + Insert(le, x, xs[k..])
    decreases k
  {
    if k > 0 {
      InsertSplit(le, x, xs[1..], k - 1);
      assert xs[1..][k - 1..] == xs[k..];
      assert xs[..k] == [xs[0]] + xs[1..][..k - 1];
    } else {
      assert xs[0..] == xs;
    }
  }

  /** Moves `a[i]` into the sorted rest of the array. */
  method InsertInPlace(a: array<PidEnergyAttribution>, i: nat)
    requires i < a.Length
    modifies a
    ensures a[..i] == old(a[..i])
    ensures a[i..] == Insert(AttributionLe, old(a[i]), old(a[i + 1..]))
  {
    var x := a[i];
    ghost var xs := a[..];
    var j := i;
    while j + 1 < a.Length && !AttributionLe(x, a[j + 1])
      invariant i <= j < a.Length
      invariant a[..j] == xs[..i] + xs[i + 1..j + 1]
      invariant a[j + 1..] == xs[j + 1..]
      invariant forall k :: i < k <= j ==> !AttributionLe(x, xs[k])
    {
      assert a[j + 1] == xs[j + 1];
      a[j] := a[j + 1];
      j := j + 1;
      assert a[..j] == a[..j - 1] + [xs[j]];
    }
    a[j] := x;
    InsertedTail(xs, a[..], i, j);
  }

  /** Where the loop stops is where `Insert` puts the element. */
  lemma InsertedTail(xs: seq<PidEnergyAttribution>, ys: seq<PidEnergyAttribution>, i: nat, j: nat)
    requires i <= j < |xs| == |ys|
    requires ys[..j] == xs[..i] + xs[i + 1..j + 1] && ys[j] == xs[i] && ys[j + 1..] == xs[j + 1..]
    requires forall k :: i < k <= j ==> !AttributionLe(xs[i], xs[k])
    requires j + 1 < |xs| ==> AttributionLe(xs[i], xs[j + 1])
    ensures ys[..i] == xs[..i]
    ensures ys[i..] == Insert(AttributionLe, xs[i], xs[i + 1..])
  {
    var tail := xs[i + 1..];
    InsertSplit(AttributionLe, xs[i], tail, j - i);
    assert tail[..j - i] == xs[i + 1..j + 1];
    assert tail[j - i..] == xs[j + 1..];
    assert ys == xs[..i] + xs[i + 1..j + 1] + [xs[i]] + xs[j + 1..] by {
      assert ys == ys[..j] + [ys[j]] + ys[j + 1..];
    }
  }

  /** A stable in-place sort; by `StableSortUnique` every stable sort leaves the same array. */
  method SortAttributions(a: array<PidEnergyAttribution>)
    modifies a
    ensures a[..] == Sort(AttributionLe, old(a[..]))
    ensures AscendingRecords(a[..]) && multiset(a[..]) == multiset(old(a[..]))
  {
    ghost var xs := a[..];
    var i := a.Length;
    while i > 0
      invariant 0 <= i <= a.Length
      invariant a[..i] == xs[..i]
      invariant a[i..] == Sort(AttributionLe, xs[i..])
    {
      i := i - 1;
      assert xs[i..][1..] == xs[i + 1..];
      assert a[i] == xs[i];
      InsertInPlace(a, i);
      assert a[..i] == xs[..i];
    }
    assert a[..] == a[0..] && xs[0..] == xs;
    SealedAscending(xs);
  }

  method MakeSeal(e: Scheme, key: Key, version: u32, attributions: array<PidEnergyAttribution>, serial: string,
                  total: u64, identity: HardwareIdentity, now: u64)
    returns (seal: SealRecord)
    modifies attributions
    ensures seal == SealPayload(e, key, SealedPayload(version, old(attributions[..]), serial, total, identity, now))
    ensures AscendingRecords(seal.payload.attributions)
    ensures multiset(seal.payload.attributions) == multiset(old(attributions[..]))
    ensures seal.payload.totalMicroJoules == total && seal.payload.sealedAtUnixNs == now && seal.payload.hardwareSerial == serial
    ensures seal.payload.manifestVersion == version && seal.payload.hardwareIdentity == identity
    ensures Correct(e) ==> Verify(e, seal) == Verified
  {
    SortAttributions(attributions);
    var payload := Payload(version, serial, identity, now, total, attributions[..]);
    var canonical := CanonicalJson(payload);
    seal := SealRecord(payload, e.publicKey(key), e.sign(key, canonical), canonical);
    if Correct(e) {
      FreshSealVerifies(e, key, payload);
    }
  }
}
