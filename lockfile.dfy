/**
  Dependency-lock decoding (pkg/remote/terraform/lockfile.go): a lock document is a
  sequence of `provider "<address>"` blocks; each block is checked (canonical, lockable
  address; present, normalized version), the first block for an address wins, a later one
  is reported as a duplicate, and diagnostics accumulate across blocks.

  The HCL parser, the provider-address library and the version library are not part of
  this model: their results enter as data (the parsed blocks) and as the functions of
  `Libraries`.
*/
module Lockfile {
  import opened Common

  /** `addrs.Provider`: a fully qualified provider source address. */
  datatype ProviderAddr = ProviderAddr(typ: string, namespace: string, hostname: string)

  /** One lock record.  Decoding fills only `addr` and `version`. */
  datatype LockFileProvider = LockFileProvider(
    addr: ProviderAddr, constraints: string, hashes: seq<string>, version: string)

  // ---------------------------------------------------------------------------
  // Diagnostics (`tfdiags.Diagnostics`)

  datatype Severity = Error | Warning

  datatype Diag = Diag(severity: Severity, summary: string, detail: string)

  predicate HasErrors(ds: seq<Diag>) {
    exists i :: 0 <= i < |ds| && ds[i].severity == Error
  }

  /** `diags.Err()` as it reaches the next `Append`: nothing when there is no error (the
      warnings are dropped with it), otherwise every diagnostic, warnings included. */
  function Err(ds: seq<Diag>): (r: seq<Diag>)
    ensures r == [] <==> !HasErrors(ds)
    ensures r != [] ==> r == ds
  {
    if HasErrors(ds) then ds else []
  }

  /** A Go `error` built by `fmt.Errorf`, once appended to diagnostics. */
  function ErrorDiag(message: string): Diag {
    Diag(Error, message, "")
  }

  /** The text of an error holding a single diagnostic: its summary, then its detail if any. */
  function ErrorText(d: Diag): string {
    if d.detail == "" then d.summary else d.summary + ": " + d.detail
  }

  lemma HasErrorsAppend(a: seq<Diag>, b: seq<Diag>)
    ensures HasErrors(a + b) <==> HasErrors(a) || HasErrors(b)
  {
    if HasErrors(a) {
      var i :| 0 <= i < |a| && a[i].severity == Error;
      assert (a + b)[i] == a[i];
    }
    if HasErrors(b) {
      var i :| 0 <= i < |b| && b[i].severity == Error;
      assert (a + b)[|a| + i] == b[i];
    }
    if HasErrors(a + b) {
      var i :| 0 <= i < |a + b| && (a + b)[i].severity == Error;
      if i < |a| {
        assert a[i] == (a + b)[i];
      } else {
        assert b[i - |a|] == (a + b)[i];
      }
    }
  }

  // ---------------------------------------------------------------------------
  // The libraries the decoder calls

  /** `addrs.ParseProviderSourceString` (None when it reports an error), `Provider.String`,
      `IsBuiltIn`, `IsLegacy`, and `version.NewVersion` followed by `String` (None when the
      version does not parse). */
  datatype Libraries = Libraries(
    parseProviderSource: string -> Option<ProviderAddr>,
    display: ProviderAddr -> string,
    isBuiltIn: ProviderAddr -> bool,
    isLegacy: ProviderAddr -> bool,
    normalizeVersion: string -> Option<string>)

  /** Built-in and legacy providers are not eligible for version locking. */
  predicate ProviderIsLockable(libs: Libraries, addr: ProviderAddr) {
    !(libs.isBuiltIn(addr) || libs.isLegacy(addr))
  }

  // ---------------------------------------------------------------------------
  // Parsed input

  /** The `version` argument, decoded by `gohcl.DecodeExpression` into a `*string`: the
      diagnostics of that decoding and the string (None for a null value). */
  datatype VersionExpr = VersionExpr(decodeDiags: seq<Diag>, raw: Option<string>)

  /** A `provider` block: its label, the diagnostics of checking its body against the schema
      (`version` required, `constraints` and `hashes` optional), its `version` argument if
      present, and its definition range as printed. */
  datatype Block = Block(sourceAddr: string, bodyDiags: seq<Diag>, version: Option<VersionExpr>, defRange: string)

  /** The document body: the diagnostics of checking it against the top-level schema and
      the `provider` blocks in document order. */
  datatype Body = Body(contentDiags: seq<Diag>, blocks: seq<Block>)

  /** What the HCL parser hands back: maybe a file, and its diagnostics. */
  datatype ParseResult = ParseResult(file: Option<Body>, diags: seq<Diag>)

  /** The diagnostic the HCL schema check reports when the required `version` is missing. */
  const HclMissingVersion: Diag :=
    Diag(Error, "Missing required argument", "The argument \"version\" is required, but no definition was found.")

  // ---------------------------------------------------------------------------
  // Messages

  const BadAddressMessage: string :=
    "the provider source address for a provider lock must be a valid, fully-qualified address of the form \"hostname/namespace/type\""

  function BuiltInMessage(addr: string): string {
    "cannot lock a version for built-in provider " + addr + ". Built-in providers are bundled inside Terraform itself, so you can't select a version for them independently of the Terraform release you are currently running"
  }

  function SpecialProviderMessage(addr: string): string {
    "provider source address " + addr + " is a special provider that is not eligible for dependency locking"
  }

  function NonCanonicalAddressMessage(canon: string): string {
    "the provider source address for this provider lock must be written as \"" + canon + "\", the fully-qualified and normalized form"
  }

  const NullVersion: Diag :=
    Diag(Error, "Missing required argument", "A provider lock block must contain a \"version\" argument.")

  function NonNormalizedVersion(provider: string, canon: string): Diag {
    Diag(Error, "Invalid provider version number",
      "The selected version number for provider " + provider + " must be written in normalized form: \"" + canon + "\".")
  }

  function DuplicateLock(provider: string, previous: string): Diag {
    Diag(Error, "Duplicate provider lock",
      "This lockfile already declared a lock for provider " + provider + " at " + previous + ".")
  }

  // ---------------------------------------------------------------------------
  // One block

  /** The label parses to a lockable address that prints back exactly as the label. */
  predicate AddressAccepted(libs: Libraries, sourceAddr: string) {
    var p := libs.parseProviderSource(sourceAddr);
    p.Some? && ProviderIsLockable(libs, p.value) && libs.display(p.value) == sourceAddr
  }

  /** The version string given in a block parses as a version whenever the decoder reaches
      it; otherwise the source dereferences a nil version and panics. */
  predicate VersionParses(libs: Libraries, b: Block) {
    AddressAccepted(libs, b.sourceAddr) && b.version.Some? && !HasErrors(b.version.value.decodeDiags)
      && b.version.value.raw.Some?
    ==> libs.normalizeVersion(b.version.value.raw.value).Some?
  }

  datatype VersionResult = VersionResult(version: Option<string>, diags: seq<Diag>)

  /** `decodeProviderVersionArgument` */
  function DecodeProviderVersionArgument(libs: Libraries, provider: ProviderAddr, attr: Option<VersionExpr>): (r: VersionResult)
    requires attr.Some? && !HasErrors(attr.value.decodeDiags) && attr.value.raw.Some?
      ==> libs.normalizeVersion(attr.value.raw.value).Some?
    ensures attr.None? ==> r == VersionResult(None, [])
    ensures attr.Some? && r.version.None? ==> HasErrors(r.diags)
    ensures r.version.Some? ==>
      && attr.Some? && attr.value.raw.Some?
      && !HasErrors(attr.value.decodeDiags)
      && Some(r.version.value) == libs.normalizeVersion(attr.value.raw.value)
    ensures r.version.Some? ==>
      (HasErrors(r.diags) <==> r.version.value != attr.value.raw.value)
  {
    if attr.None? then VersionResult(None, [])
    else
      var e := attr.value;
      if HasErrors(e.decodeDiags) then VersionResult(None, e.decodeDiags)
      else if e.raw.None? then
        HasErrorsAppend(e.decodeDiags, [NullVersion]);
        assert [NullVersion][0].severity == Error;
        VersionResult(None, e.decodeDiags + [NullVersion])
      else
        var canon := libs.normalizeVersion(e.raw.value).value;
        if canon != e.raw.value then
          var d := NonNormalizedVersion(libs.display(provider), canon);
          HasErrorsAppend(e.decodeDiags, [d]);
          assert [d][0].severity == Error;
          VersionResult(Some(canon), e.decodeDiags + [d])
        else VersionResult(Some(canon), e.decodeDiags)
  }

  datatype LockResult = LockResult(lock: Option<LockFileProvider>, diags: seq<Diag>)

  /** Why an address is refused, checked in the source's order: it does not parse, it is
      built in, it is otherwise not lockable, or it is not written in canonical form. */
  function RejectionMessage(libs: Libraries, sourceAddr: string): string
    requires !AddressAccepted(libs, sourceAddr)
  {
    var p := libs.parseProviderSource(sourceAddr);
    if p.None? then BadAddressMessage
    else if !ProviderIsLockable(libs, p.value) then
      if libs.isBuiltIn(p.value) then BuiltInMessage(libs.display(p.value))
      else SpecialProviderMessage(libs.display(p.value))
    else NonCanonicalAddressMessage(libs.display(p.value))
  }

  /** `decodeProviderLockFromHCL`: the lock (None for the Go nil) and the diagnostics that the
      returned error adds at the caller. */
  function DecodeProviderLock(libs: Libraries, b: Block): (r: LockResult)
    requires VersionParses(libs, b)
    ensures r.lock.Some? <==> AddressAccepted(libs, b.sourceAddr)
    ensures r.lock.None? ==> |r.diags| == 1 && r.diags[0].severity == Error
    ensures r.lock.Some? ==>
      && Some(r.lock.value.addr) == libs.parseProviderSource(b.sourceAddr)
      && libs.display(r.lock.value.addr) == b.sourceAddr
      && r.lock.value.constraints == ""
      && r.lock.value.hashes == []
  {
    if !AddressAccepted(libs, b.sourceAddr) then
      LockResult(None, [ErrorDiag(RejectionMessage(libs, b.sourceAddr))])
    else
      var addr := libs.parseProviderSource(b.sourceAddr).value;
      var v := DecodeProviderVersionArgument(libs, addr, b.version);
      var version := if v.version.Some? then v.version.value else "";
      LockResult(Some(LockFileProvider(addr, "", [], version)), Err(b.bodyDiags + v.diags))
  }

  /** A block whose label does not parse is rejected with the fixed message. */
  lemma UnparsableAddressRejected(libs: Libraries, b: Block)
    requires libs.parseProviderSource(b.sourceAddr).None?
    ensures DecodeProviderLock(libs, b) == LockResult(None, [ErrorDiag(BadAddressMessage)])
  {
  }

  /** A built-in provider gets the dedicated message, another non-lockable one the generic. */
  lemma UnlockableAddressRejected(libs: Libraries, b: Block)
    requires libs.parseProviderSource(b.sourceAddr).Some?
    requires !ProviderIsLockable(libs, libs.parseProviderSource(b.sourceAddr).value)
    ensures var addr := libs.parseProviderSource(b.sourceAddr).value;
      DecodeProviderLock(libs, b) == LockResult(None, [ErrorDiag(
        if libs.isBuiltIn(addr) then BuiltInMessage(libs.display(addr))
        else SpecialProviderMessage(libs.display(addr)))])
  {
  }

  /** An address not written in canonical form is rejected with a message quoting that form. */
  lemma NonCanonicalAddressRejected(libs: Libraries, b: Block)
    requires libs.parseProviderSource(b.sourceAddr).Some?
    requires ProviderIsLockable(libs, libs.parseProviderSource(b.sourceAddr).value)
    requires libs.display(libs.parseProviderSource(b.sourceAddr).value) != b.sourceAddr
    ensures DecodeProviderLock(libs, b) == LockResult(None, [ErrorDiag(
      NonCanonicalAddressMessage(libs.display(libs.parseProviderSource(b.sourceAddr).value)))])
  {
  }

  /** A block without a usable version is kept, with an empty version, and an error is
      reported: the schema check's when the argument is missing, the decoder's own when it is
      null. */
  lemma MissingVersionKeptWithError(libs: Libraries, b: Block)
    requires AddressAccepted(libs, b.sourceAddr)
    requires b.version.None? ==> HclMissingVersion in b.bodyDiags
    requires b.version.Some? ==> !HasErrors(b.version.value.decodeDiags) && b.version.value.raw.None?
    ensures var r := DecodeProviderLock(libs, b);
      && r.lock.Some? && r.lock.value.version == ""
      && (if b.version.None? then HclMissingVersion else NullVersion) in r.diags
  {
    var addr := libs.parseProviderSource(b.sourceAddr).value;
    var v := DecodeProviderVersionArgument(libs, addr, b.version);
    var all := b.bodyDiags + v.diags;
    if b.version.None? {
      var i :| 0 <= i < |b.bodyDiags| && b.bodyDiags[i] == HclMissingVersion;
      assert all[i] == HclMissingVersion;
    } else {
      assert all[|all| - 1] == NullVersion;
    }
    assert HasErrors(all);
  }

  /** A version that parses but is not in normalized form is stored normalized, with an error
      quoting the normalized form. */
  lemma NonNormalizedVersionReported(libs: Libraries, b: Block)
    requires AddressAccepted(libs, b.sourceAddr)
    requires b.version.Some? && !HasErrors(b.version.value.decodeDiags) && b.version.value.raw.Some?
    requires libs.normalizeVersion(b.version.value.raw.value).Some?
    requires libs.normalizeVersion(b.version.value.raw.value).value != b.version.value.raw.value
    ensures var r := DecodeProviderLock(libs, b);
      var canon := libs.normalizeVersion(b.version.value.raw.value).value;
      && r.lock.Some? && r.lock.value.version == canon
      && NonNormalizedVersion(b.sourceAddr, canon) in r.diags
  {
    var addr := libs.parseProviderSource(b.sourceAddr).value;
    var v := DecodeProviderVersionArgument(libs, addr, b.version);
    var all := b.bodyDiags + v.diags;
    assert all[|all| - 1] == NonNormalizedVersion(b.sourceAddr, libs.normalizeVersion(b.version.value.raw.value).value);
  }

  /** A well-formed block: accepted address, clean body, a version given in normalized form. */
  predicate WellFormed(libs: Libraries, b: Block) {
    && AddressAccepted(libs, b.sourceAddr)
    && !HasErrors(b.bodyDiags)
    && b.version.Some? && !HasErrors(b.version.value.decodeDiags) && b.version.value.raw.Some?
    && libs.normalizeVersion(b.version.value.raw.value) == Some(b.version.value.raw.value)
  }

  /** A well-formed block decodes to its lock and adds no diagnostics. */
  lemma WellFormedDecodes(libs: Libraries, b: Block)
    requires WellFormed(libs, b)
    ensures var r := DecodeProviderLock(libs, b);
      && r.diags == []
      && r.lock == Some(LockFileProvider(libs.parseProviderSource(b.sourceAddr).value, "", [], b.version.value.raw.value))
  {
    var addr := libs.parseProviderSource(b.sourceAddr).value;
    HasErrorsAppend(b.bodyDiags, DecodeProviderVersionArgument(libs, addr, b.version).diags);
  }

  // ---------------------------------------------------------------------------
  // The block loop

  /** The state of `decodeLocksFromHCL`'s loop: the lock map, the map of seen addresses to
      the range of their first block, and the diagnostics so far. */
  datatype DecodeState = DecodeState(
    providers: map<ProviderAddr, LockFileProvider>, seen: map<ProviderAddr, string>, diags: seq<Diag>)

  ghost predicate AllVersionsParse(libs: Libraries, bs: seq<Block>) {
    forall i :: 0 <= i < |bs| ==> VersionParses(libs, bs[i])
  }

  /** One iteration: a rejected block only adds its diagnostics; a block for an address seen
      before adds a duplicate error and is skipped; otherwise its lock is stored. */
  function Step(libs: Libraries, st: DecodeState, b: Block): DecodeState
    requires VersionParses(libs, b)
  {
    var r := DecodeProviderLock(libs, b);
    var diags := st.diags + r.diags;
    if r.lock.None? then st.(diags := diags)
    else
      var addr := r.lock.value.addr;
      if addr in st.seen then st.(diags := diags + [DuplicateLock(libs.display(addr), st.seen[addr])])
      else DecodeState(st.providers[addr := r.lock.value], st.seen[addr := b.defRange], diags)
  }

  /** The loop's state after the blocks `bs`, in order. */
  ghost function DecodeAll(libs: Libraries, st: DecodeState, bs: seq<Block>): DecodeState
    requires AllVersionsParse(libs, bs)
    decreases |bs|
  {
    if bs == [] then st
    else Step(libs, DecodeAll(libs, st, bs[..|bs| - 1]), bs[|bs| - 1])
  }

  /** The first block of `bs` whose lock is for `addr`: that lock and the block's range. */
  ghost function FirstLock(libs: Libraries, bs: seq<Block>, addr: ProviderAddr): Option<(LockFileProvider, string)>
    requires AllVersionsParse(libs, bs)
    decreases |bs|
  {
    if bs == [] then None
    else
      var earlier := FirstLock(libs, bs[..|bs| - 1], addr);
      var l := DecodeProviderLock(libs, bs[|bs| - 1]).lock;
      if earlier.Some? then earlier
      else if l.Some? && l.value.addr == addr then Some((l.value, bs[|bs| - 1].defRange))
      else None
  }

  lemma AllVersionsParsePrefix(libs: Libraries, bs: seq<Block>, n: nat)
    requires AllVersionsParse(libs, bs) && n <= |bs|
    ensures AllVersionsParse(libs, bs[..n])
  {
    assert forall i :: 0 <= i < n ==> bs[..n][i] == bs[i];
  }

  /** The first decoded block for an address is the one stored; an address no block decodes
      to keeps whatever lock the map held before. */
  lemma {:induction false} FirstBlockWins(libs: Libraries, st: DecodeState, bs: seq<Block>, addr: ProviderAddr)
    requires AllVersionsParse(libs, bs)
    requires st.seen == map[]
    ensures var r := DecodeAll(libs, st, bs);
      var f := FirstLock(libs, bs, addr);
      && (addr in r.seen <==> f.Some?)
      && (f.Some? ==> r.seen[addr] == f.value.1 && addr in r.providers && r.providers[addr] == f.value.0)
      && (f.None? ==> (addr in r.providers <==> addr in st.providers))
      && (f.None? && addr in st.providers ==> r.providers[addr] == st.providers[addr])
    decreases |bs|
  {
    if bs != [] {
      AllVersionsParsePrefix(libs, bs, |bs| - 1);
      FirstBlockWins(libs, st, bs[..|bs| - 1], addr);
    }
  }

  /** Diagnostics only accumulate: the state after a prefix has a prefix of the final ones. */
  lemma {:induction false} DiagsAccumulate(libs: Libraries, st: DecodeState, bs: seq<Block>, n: nat)
    requires AllVersionsParse(libs, bs) && n <= |bs|
    ensures AllVersionsParse(libs, bs[..n])
    ensures DecodeAll(libs, st, bs[..n]).diags <= DecodeAll(libs, st, bs).diags
    decreases |bs|
  {
    AllVersionsParsePrefix(libs, bs, n);
    if n < |bs| {
      AllVersionsParsePrefix(libs, bs, |bs| - 1);
      DiagsAccumulate(libs, st, bs[..|bs| - 1], n);
      assert bs[..|bs| - 1][..n] == bs[..n];
    } else {
      assert bs[..n] == bs;
    }
  }

  /** A later block for an address already locked is reported as a duplicate, naming the
      address and the range of the first block for it. */
  lemma DuplicateReported(libs: Libraries, st: DecodeState, bs: seq<Block>, i: nat, j: nat)
    requires AllVersionsParse(libs, bs)
    requires st.seen == map[]
    requires i < j < |bs|
    requires DecodeProviderLock(libs, bs[i]).lock.Some? && DecodeProviderLock(libs, bs[j]).lock.Some?
    requires DecodeProviderLock(libs, bs[i]).lock.value.addr == DecodeProviderLock(libs, bs[j]).lock.value.addr
    ensures AllVersionsParse(libs, bs[..j])
    ensures var addr := DecodeProviderLock(libs, bs[j]).lock.value.addr;
      && FirstLock(libs, bs[..j], addr).Some?
      && DuplicateLock(libs.display(addr), FirstLock(libs, bs[..j], addr).value.1) in DecodeAll(libs, st, bs).diags
  {
    var addr := DecodeProviderLock(libs, bs[j]).lock.value.addr;
    AllVersionsParsePrefix(libs, bs, j);
    AllVersionsParsePrefix(libs, bs, j + 1);
    FoundBefore(libs, bs[..j], i, addr);
    FirstBlockWins(libs, st, bs[..j], addr);
    var pre := bs[..j + 1];
    assert pre[..|pre| - 1] == bs[..j];
    assert pre[|pre| - 1] == bs[j];
    var d := DuplicateLock(libs.display(addr), FirstLock(libs, bs[..j], addr).value.1);
    var after := DecodeAll(libs, st, pre).diags;
    assert after[|after| - 1] == d;
    DiagsAccumulate(libs, st, bs, j + 1);
    assert d in DecodeAll(libs, st, bs).diags by {
      assert DecodeAll(libs, st, bs).diags[|after| - 1] == d;
    }
  }

  /** A block that decodes to a lock for `addr` makes `FirstLock` find one. */
  lemma {:induction false} FoundBefore(libs: Libraries, bs: seq<Block>, i: nat, addr: ProviderAddr)
    requires AllVersionsParse(libs, bs) && i < |bs|
    requires DecodeProviderLock(libs, bs[i]).lock.Some? && DecodeProviderLock(libs, bs[i]).lock.value.addr == addr
    ensures FirstLock(libs, bs, addr).Some?
    decreases |bs|
  {
    if i < |bs| - 1 {
      AllVersionsParsePrefix(libs, bs, |bs| - 1);
      FoundBefore(libs, bs[..|bs| - 1], i, addr);
    }
  }

  /** Decoding a well-formed block for a new address stores its lock and adds nothing. */
  lemma WellFormedStep(libs: Libraries, st: DecodeState, b: Block)
    requires WellFormed(libs, b)
    requires libs.parseProviderSource(b.sourceAddr).value !in st.seen
    ensures var addr := libs.parseProviderSource(b.sourceAddr).value;
      Step(libs, st, b) == DecodeState(
        st.providers[addr := LockFileProvider(addr, "", [], b.version.value.raw.value)],
        st.seen[addr := b.defRange], st.diags)
  {
    WellFormedDecodes(libs, b);
    assert st.diags + [] == st.diags;
  }

  /** The block `FirstLock` finds. */
  lemma {:induction false} FirstLockIndex(libs: Libraries, bs: seq<Block>, addr: ProviderAddr) returns (i: nat)
    requires AllVersionsParse(libs, bs)
    requires FirstLock(libs, bs, addr).Some?
    ensures i < |bs|
    ensures DecodeProviderLock(libs, bs[i]).lock == Some(FirstLock(libs, bs, addr).value.0)
    ensures FirstLock(libs, bs, addr).value.0.addr == addr
    decreases |bs|
  {
    AllVersionsParsePrefix(libs, bs, |bs| - 1);
    if FirstLock(libs, bs[..|bs| - 1], addr).Some? {
      i := FirstLockIndex(libs, bs[..|bs| - 1], addr);
    } else {
      i := |bs| - 1;
    }
  }

  /** Well-formed blocks with distinct labels, decoded into an empty map: one lock per block
      and not a single diagnostic added. */
  lemma {:induction false} WellFormedBlocksAllStored(libs: Libraries, st: DecodeState, bs: seq<Block>)
    requires st.providers == map[] && st.seen == map[]
    requires forall i :: 0 <= i < |bs| ==> WellFormed(libs, bs[i])
    requires forall i, j :: 0 <= i < j < |bs| ==> bs[i].sourceAddr != bs[j].sourceAddr
    ensures AllVersionsParse(libs, bs)
    ensures var r := DecodeAll(libs, st, bs);
      && r.diags == st.diags
      && r.providers.Keys == r.seen.Keys
      && |r.providers| == |bs|
    decreases |bs|
  {
    if bs != [] {
      var bs' := bs[..|bs| - 1];
      var b := bs[|bs| - 1];
      WellFormedBlocksAllStored(libs, st, bs');
      var prev := DecodeAll(libs, st, bs');
      NewAddressNotSeen(libs, st, bs', b);
      WellFormedStep(libs, prev, b);
    }
  }

  /** A well-formed block whose label no earlier block has is for an address not seen yet. */
  lemma NewAddressNotSeen(libs: Libraries, st: DecodeState, bs: seq<Block>, b: Block)
    requires st.seen == map[]
    requires forall i :: 0 <= i < |bs| ==> WellFormed(libs, bs[i]) && bs[i].sourceAddr != b.sourceAddr
    requires WellFormed(libs, b)
    ensures AllVersionsParse(libs, bs)
    ensures libs.parseProviderSource(b.sourceAddr).value !in DecodeAll(libs, st, bs).seen
  {
    var addr := libs.parseProviderSource(b.sourceAddr).value;
    if addr in DecodeAll(libs, st, bs).seen {
      FirstBlockWins(libs, st, bs, addr);
      var i := FirstLockIndex(libs, bs, addr);
      assert false;
    }
  }

  /** The lock a well-formed block decodes to, with its version as written, is the one stored
      for its address. */
  predicate StoredFrom(libs: Libraries, providers: map<ProviderAddr, LockFileProvider>, b: Block)
    requires WellFormed(libs, b)
  {
    var a := libs.parseProviderSource(b.sourceAddr).value;
    a in providers && providers[a] == LockFileProvider(a, "", [], b.version.value.raw.value)
  }

  /** Well-formed blocks with distinct labels: each block's lock is stored under its address,
      with the version it gives. */
  lemma {:induction false} WellFormedBlocksStoredAsWritten(libs: Libraries, st: DecodeState, bs: seq<Block>)
    requires st.seen == map[]
    requires forall i :: 0 <= i < |bs| ==> WellFormed(libs, bs[i])
    requires forall i, j :: 0 <= i < j < |bs| ==> bs[i].sourceAddr != bs[j].sourceAddr
    ensures AllVersionsParse(libs, bs)
    ensures forall i :: 0 <= i < |bs| ==> StoredFrom(libs, DecodeAll(libs, st, bs).providers, bs[i])
    decreases |bs|
  {
    if bs != [] {
      var bs' := bs[..|bs| - 1];
      var b := bs[|bs| - 1];
      WellFormedBlocksStoredAsWritten(libs, st, bs');
      var prev := DecodeAll(libs, st, bs');
      NewAddressNotSeen(libs, st, bs', b);
      WellFormedStep(libs, prev, b);
      var addr := libs.parseProviderSource(b.sourceAddr).value;
      forall i | 0 <= i < |bs| - 1
        ensures StoredFrom(libs, DecodeAll(libs, st, bs).providers, bs[i])
      {
        assert bs[i] == bs'[i];
        assert libs.parseProviderSource(bs[i].sourceAddr).value != addr;
      }
    }
  }

  // ---------------------------------------------------------------------------
  // The lock set

  class Locks {
    var providers: map<ProviderAddr, LockFileProvider>

    /** `NewLocks`: no locks at all. */
    constructor ()
      ensures providers == map[]
    {
      providers := map[];
    }

    /** The stored lock for `addr`, or None (the Go nil) when it has none. */
    function Provider(addr: ProviderAddr): (r: Option<LockFileProvider>)
      reads this
      ensures r.Some? <==> addr in providers
      ensures r.Some? ==> r.value == providers[addr]
    {
      if addr in providers then Some(providers[addr]) else None
    }

    /** `decodeLocksFromHCL`: decodes the blocks in order into this lock set and returns the
        error the diagnostics make. */
    method DecodeLocksFromHCL(libs: Libraries, body: Body) returns (err: seq<Diag>)
      requires AllVersionsParse(libs, body.blocks)
      modifies this
      ensures var r := DecodeAll(libs, DecodeState(old(providers), map[], body.contentDiags), body.blocks);
        providers == r.providers && err == Err(r.diags)
    {
      ghost var st0 := DecodeState(providers, map[], body.contentDiags);
      var seen: map<ProviderAddr, string> := map[];
      var diags := body.contentDiags;
      for i := 0 to |body.blocks|
        invariant AllVersionsParse(libs, body.blocks[..i])
        invariant DecodeAll(libs, st0, body.blocks[..i]) == DecodeState(providers, seen, diags)
      {
        var block := body.blocks[i];
        AllVersionsParsePrefix(libs, body.blocks, i + 1);
        assert body.blocks[..i + 1][..i] == body.blocks[..i];
        var r := DecodeProviderLock(libs, block);
        diags := diags + r.diags;
        if r.lock.Some? {
          var lock := r.lock.value;
          if lock.addr in seen {
            diags := diags + [DuplicateLock(libs.display(lock.addr), seen[lock.addr])];
          } else {
            providers := providers[lock.addr := lock];
            seen := seen[lock.addr := block.defRange];
          }
        }
      }
      assert body.blocks[..|body.blocks|] == body.blocks;
      err := Err(diags);
    }
  }

  datatype LoadOutcome = LoadOutcome(providers: map<ProviderAddr, LockFileProvider>, err: seq<Diag>)

  /** What `loadLocks` returns, for a parse result: the decoded locks and the error. */
  ghost function Load(libs: Libraries, parsed: ParseResult): LoadOutcome
    requires parsed.file.Some? ==> AllVersionsParse(libs, parsed.file.value.blocks)
  {
    if parsed.file.None? then LoadOutcome(map[], Err(parsed.diags))
    else
      var r := DecodeAll(libs, DecodeState(map[], map[], parsed.file.value.contentDiags), parsed.file.value.blocks);
      LoadOutcome(r.providers, Err(parsed.diags + Err(r.diags)))
  }

  /** `loadLocks`: a fresh lock set filled from the parsed file, if there is one. */
  method LoadLocks(libs: Libraries, parsed: ParseResult) returns (locks: Locks, err: seq<Diag>)
    requires parsed.file.Some? ==> AllVersionsParse(libs, parsed.file.value.blocks)
    ensures fresh(locks)
    ensures LoadOutcome(locks.providers, err) == Load(libs, parsed)
  {
    locks := new Locks();
    if parsed.file.None? {
      return locks, Err(parsed.diags);
    }
    var more := locks.DecodeLocksFromHCL(libs, parsed.file.value);
    err := Err(parsed.diags + more);
  }

  /** Without a file, no locks and the parser's diagnostics as the error. */
  lemma NoFileNoLocks(libs: Libraries, parsed: ParseResult)
    requires parsed.file.None?
    ensures Load(libs, parsed).providers == map[]
    ensures Load(libs, parsed).err == Err(parsed.diags)
    ensures Load(libs, parsed).err == [] <==> !HasErrors(parsed.diags)
  {
  }

  /** An empty document gives no locks and no error. */
  lemma EmptyDocumentNoLocks(libs: Libraries)
    ensures Load(libs, ParseResult(Some(Body([], [])), [])).providers == map[]
    ensures Load(libs, ParseResult(Some(Body([], [])), [])).err == []
  {
  }

  /** A clean document of N well-formed blocks with distinct addresses gives N locks and no
      error. */
  lemma WellFormedDocumentLoads(libs: Libraries, parsed: ParseResult)
    requires parsed.file.Some? && !HasErrors(parsed.diags) && !HasErrors(parsed.file.value.contentDiags)
    requires var bs := parsed.file.value.blocks;
      (forall i :: 0 <= i < |bs| ==> WellFormed(libs, bs[i]))
      && forall i, j :: 0 <= i < j < |bs| ==> bs[i].sourceAddr != bs[j].sourceAddr
    ensures AllVersionsParse(libs, parsed.file.value.blocks)
    ensures |Load(libs, parsed).providers| == |parsed.file.value.blocks|
    ensures var bs := parsed.file.value.blocks;
      forall i :: 0 <= i < |bs| ==>
        var a := libs.parseProviderSource(bs[i].sourceAddr).value;
        a in Load(libs, parsed).providers && Load(libs, parsed).providers[a].version == bs[i].version.value.raw.value
    ensures Load(libs, parsed).err == []
  {
    WellFormedBlocksAllStored(libs, DecodeState(map[], map[], parsed.file.value.contentDiags), parsed.file.value.blocks);
    WellFormedBlocksStoredAsWritten(libs, DecodeState(map[], map[], parsed.file.value.contentDiags), parsed.file.value.blocks);
    HasErrorsAppend(parsed.diags, []);
    assert parsed.diags + [] == parsed.diags;
  }

  lemma DecodeOne(libs: Libraries, st: DecodeState, b: Block)
    requires VersionParses(libs, b)
    ensures AllVersionsParse(libs, [b])
    ensures DecodeAll(libs, st, [b]) == Step(libs, st, b)
  {
    assert [b][..0] == [];
  }

  lemma DecodeTwo(libs: Libraries, st: DecodeState, x: Block, y: Block)
    requires VersionParses(libs, x) && VersionParses(libs, y)
    ensures AllVersionsParse(libs, [x, y])
    ensures DecodeAll(libs, st, [x, y]) == Step(libs, Step(libs, st, x), y)
  {
    assert [x, y][..1] == [x];
    DecodeOne(libs, st, x);
  }

  /** A document holding a block that names a lockable provider in non-canonical form and a
      well-formed block, in either order: the well-formed block's lock is the only one, and the
      only error is the one whose text quotes the canonical form. */
  lemma NonCanonicalBesideCleanBlock(libs: Libraries, bad: Block, good: Block, badFirst: bool)
    requires libs.parseProviderSource(bad.sourceAddr).Some?
    requires ProviderIsLockable(libs, libs.parseProviderSource(bad.sourceAddr).value)
    requires libs.display(libs.parseProviderSource(bad.sourceAddr).value) != bad.sourceAddr
    requires WellFormed(libs, good)
    ensures AllVersionsParse(libs, if badFirst then [bad, good] else [good, bad])
    ensures var out := Load(libs, ParseResult(Some(Body([], if badFirst then [bad, good] else [good, bad])), []));
      var a := libs.parseProviderSource(good.sourceAddr).value;
      && out.providers == map[a := LockFileProvider(a, "", [], good.version.value.raw.value)]
      && |out.err| == 1
      && ErrorText(out.err[0]) == NonCanonicalAddressMessage(libs.display(libs.parseProviderSource(bad.sourceAddr).value))
  {
    var st := DecodeState(map[], map[], []);
    var d := ErrorDiag(NonCanonicalAddressMessage(libs.display(libs.parseProviderSource(bad.sourceAddr).value)));
    NonCanonicalAddressRejected(libs, bad);
    WellFormedDecodes(libs, good);
    assert [d][0].severity == Error;
    assert Err([d]) == [d];
    assert [] + [d] == [d];
    if badFirst {
      DecodeTwo(libs, st, bad, good);
      var s1 := Step(libs, st, bad);
      assert s1 == st.(diags := [d]);
      WellFormedStep(libs, s1, good);
    } else {
      DecodeTwo(libs, st, good, bad);
      WellFormedStep(libs, st, good);
      var s1 := Step(libs, st, good);
      assert s1.diags == [];
    }
  }

  /** A document whose one block is missing its `version`: the lock is stored with an empty
      version, and the error is the schema check's "Missing required argument". */
  lemma MissingVersionOnlyBlock(libs: Libraries, b: Block)
    requires AddressAccepted(libs, b.sourceAddr)
    requires b.version.None? && b.bodyDiags == [HclMissingVersion]
    ensures AllVersionsParse(libs, [b])
    ensures var out := Load(libs, ParseResult(Some(Body([], [b])), []));
      var addr := libs.parseProviderSource(b.sourceAddr).value;
      && out.providers == map[addr := LockFileProvider(addr, "", [], "")]
      && out.err == [HclMissingVersion]
  {
    var st := DecodeState(map[], map[], []);
    var addr := libs.parseProviderSource(b.sourceAddr).value;
    DecodeOne(libs, st, b);
    assert [HclMissingVersion][0].severity == Error;
    assert Err([HclMissingVersion]) == [HclMissingVersion];
    assert b.bodyDiags + [] == [HclMissingVersion];
    assert DecodeProviderLock(libs, b) == LockResult(Some(LockFileProvider(addr, "", [], "")), [HclMissingVersion]);
    assert [] + [HclMissingVersion] == [HclMissingVersion];
    var r := DecodeAll(libs, st, [b]);
    assert r.diags == [HclMissingVersion];
    assert r.providers == map[addr := LockFileProvider(addr, "", [], "")];
  }
}
