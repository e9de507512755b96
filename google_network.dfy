/**
  The Google compute-network enumerator
  (pkg/remote/google/google_compute_network_enumerator.go): it turns the repository's
  network assets into abstract resources of type `google_compute_network`, with the
  asset's name, stripped of its first `//compute.googleapis.com/`, as the id and the
  display name as the only attribute.  Repository errors become listing errors.
*/
module GoogleNetwork {
  import opened Common
  import opened Attrs
  import opened Resource

  const GoogleComputeNetworkResourceType: string := "google_compute_network"

  /** The part of a network asset's name that the id drops. */
  const ComputeApiPrefix: string := "//compute.googleapis.com/"

  /** A network asset from the Cloud Asset inventory. */
  datatype Asset = Asset(name: string, displayName: string)

  /** The error the repository reports. */
  datatype RepositoryError = RepositoryError(message: string)

  /** `remoteerror.NewResourceListingError`: the cause and the resource type being listed. */
  datatype ResourceListingError = ResourceListingError(cause: RepositoryError, resourceType: string)

  /** The enumerator: what its repository's `SearchAllNetworks` answers, and its resource
      factory's `CreateAbstractResource`. */
  datatype Enumerator = Enumerator(
    searchAllNetworks: Result<seq<Asset>, RepositoryError>,
    createAbstractResource: (string, string, Doc) -> AbstractResource)
  {
    function SupportedType(): (t: string)
      ensures t == GoogleComputeNetworkResourceType
    {
      GoogleComputeNetworkResourceType
    }
  }

  // ---------------------------------------------------------------------------
  // strings.Replace(s, sub, "", 1)

  /** `sub` occurs in `s` at position `k`. */
  predicate OccursAt(s: string, sub: string, k: int) {
    0 <= k && k + |sub| <= |s| && s[k..k + |sub|] == sub
  }

  /** `strings.Index`: the position of the first occurrence of `sub` in `s`, or -1. */
  function Index(s: string, sub: string): (r: int)
    ensures r == -1 || OccursAt(s, sub, r)
    ensures forall k :: 0 <= k && (r == -1 || k < r) ==> !OccursAt(s, sub, k)
    decreases |s|
  {
    if |s| < |sub| then -1
    else if s[..|sub|] == sub then 0
    else
      var r := Index(s[1..], sub);
      ShiftOccurs(s, sub);
      assert !OccursAt(s, sub, 0) by {
        assert s[0..|sub|] == s[..|sub|];
      }
      if r < 0 then -1 else r + 1
  }

  /** An occurrence in `s[1..]` is one in `s`, one place further on. */
  lemma ShiftOccurs(s: string, sub: string)
    requires |s| > 0
    ensures forall k :: 1 <= k ==> (OccursAt(s, sub, k) <==> OccursAt(s[1..], sub, k - 1))
  {
    forall k | 1 <= k
      ensures OccursAt(s, sub, k) <==> OccursAt(s[1..], sub, k - 1)
    {
      if k + |sub| <= |s| {
        assert s[1..][k - 1..k - 1 + |sub|] == s[k..k + |sub|];
      }
    }
  }

  /** `strings.Replace(s, sub, "", 1)`: the first occurrence of `sub` removed. */
  function RemoveFirst(s: string, sub: string): (r: string)
    requires |sub| > 0
    ensures Index(s, sub) == -1 ==> r == s
    ensures Index(s, sub) >= 0 ==> |r| == |s| - |sub|
    ensures Index(s, sub) >= 0 ==> s == r[..Index(s, sub)] + sub + r[Index(s, sub)..]
  {
    var i := Index(s, sub);
    if i < 0 then s else s[..i] + s[i + |sub|..]
  }

  /** Removing the first occurrence undoes inserting `sub` after a part that does not
      contain it: `RemoveFirst(p + sub + q) == p + q` whenever `sub` does not occur in `p` or
      straddle the `p`/`sub` boundary. */
  lemma RemoveFirstInverse(p: string, sub: string, q: string)
    requires |sub| > 0
    requires forall k :: 0 <= k < |p| ==> !OccursAt(p + sub + q, sub, k)
    ensures RemoveFirst(p + sub + q, sub) == p + q
  {
    var s := p + sub + q;
    assert s[|p|..|p| + |sub|] == sub;
    assert OccursAt(s, sub, |p|);
    var i := Index(s, sub);
    assert i == |p|;
    assert s[..i] == p;
    assert s[i + |sub|..] == q;
  }

  /** A network's id: its name without the first `//compute.googleapis.com/`.  Putting the
      prefix back where it was first found gives the name again. */
  lemma NetworkIdFromAssetName(name: string)
    ensures Index(name, ComputeApiPrefix) == -1 ==> RemoveFirst(name, ComputeApiPrefix) == name
    ensures Index(name, ComputeApiPrefix) >= 0 ==>
      var i := Index(name, ComputeApiPrefix);
      var id := RemoveFirst(name, ComputeApiPrefix);
      && name == id[..i] + ComputeApiPrefix + id[i..]
      && forall k :: 0 <= k < i ==> !OccursAt(name, ComputeApiPrefix, k)
  {
  }

  // ---------------------------------------------------------------------------
  // Enumerate

  /** The resource the factory builds for one asset. */
  function Network(e: Enumerator, a: Asset): AbstractResource {
    e.createAbstractResource(e.SupportedType(), RemoveFirst(a.name, ComputeApiPrefix),
      map["display_name" := Str(a.displayName)])
  }

  /** The created resources, one per asset, in repository order. */
  function Networks(e: Enumerator, assets: seq<Asset>): (r: seq<Option<AbstractResource>>)
    ensures |r| == |assets|
    ensures forall i :: 0 <= i < |assets| ==> r[i] == Some(Network(e, assets[i]))
  {
    seq(|assets|, i requires 0 <= i < |assets| => Some(Network(e, assets[i])))
  }

  /** `n` nil entries, as `make([]*resource.Resource, n)` holds. */
  function Nils(n: nat): (r: seq<Option<AbstractResource>>)
    ensures |r| == n && forall i :: 0 <= i < n ==> r[i] == None
  {
    seq(n, _ => None)
  }

  /** `Enumerate` as written: on success the slice is made with `len(resources)` nil entries
      and the created resources are appended after them; on a repository error there is no
      slice, and a listing error for the supported type. */
  method Enumerate(e: Enumerator) returns (results: Option<seq<Option<AbstractResource>>>, err: Option<ResourceListingError>)
    ensures e.searchAllNetworks.Failure? ==>
      results == None && err == Some(ResourceListingError(e.searchAllNetworks.error, GoogleComputeNetworkResourceType))
    ensures e.searchAllNetworks.Success? ==>
      var assets := e.searchAllNetworks.value;
      err == None && results == Some(Nils(|assets|) + Networks(e, assets))
  {
    match e.searchAllNetworks
    case Failure(cause) =>
      return None, Some(ResourceListingError(cause, e.SupportedType()));
    case Success(resources) =>
      var out := Nils(|resources|);
      for i := 0 to |resources|
        invariant out == Nils(|resources|) + Networks(e, resources[..i])
      {
        var res := resources[i];
        out := out + [Some(e.createAbstractResource(e.SupportedType(),
          RemoveFirst(res.name, ComputeApiPrefix), map["display_name" := Str(res.displayName)]))];
        assert Networks(e, resources[..i + 1]) == Networks(e, resources[..i]) + [Some(Network(e, res))];
      }
      assert resources[..|resources|] == resources;
      return Some(out), None;
  }

  /** What `Enumerate` as written returns on success, entry by entry: twice as many entries as
      assets, the first half nil, then one created resource per asset in order. */
  lemma EnumeratedShape(e: Enumerator, assets: seq<Asset>)
    ensures var r := Nils(|assets|) + Networks(e, assets);
      && |r| == 2 * |assets|
      && (forall i :: 0 <= i < |assets| ==> r[i] == None)
      && (forall i :: 0 <= i < |assets| ==> r[|assets| + i] == Some(Network(e, assets[i])))
  {
    var r := Nils(|assets|) + Networks(e, assets);
    forall i | 0 <= i < |assets|
      ensures r[|assets| + i] == Some(Network(e, assets[i]))
    {
      assert r[|assets| + i] == Networks(e, assets)[i];
    }
  }

  /** The pre-sizing leaves a nil in front of the network of a one-asset repository. */
  lemma OneAssetGivesLeadingNil(e: Enumerator, a: Asset)
    ensures var r := Nils(1) + Networks(e, [a]);
      |r| == 2 && r[0] == None && r[1] == Some(Network(e, a))
  {
  }

  /** `Enumerate` as evidently intended: the slice is made empty, with room for the results,
      so it holds exactly the created resources. */
  method EnumerateIntended(e: Enumerator) returns (results: Option<seq<Option<AbstractResource>>>, err: Option<ResourceListingError>)
    ensures e.searchAllNetworks.Failure? ==>
      results == None && err == Some(ResourceListingError(e.searchAllNetworks.error, GoogleComputeNetworkResourceType))
    ensures e.searchAllNetworks.Success? ==>
      var assets := e.searchAllNetworks.value;
      err == None && results == Some(Networks(e, assets))
  {
    match e.searchAllNetworks
    case Failure(cause) =>
      return None, Some(ResourceListingError(cause, e.SupportedType()));
    case Success(resources) =>
      var out: seq<Option<AbstractResource>> := [];
      for i := 0 to |resources|
        invariant out == Networks(e, resources[..i])
      {
        var res := resources[i];
        out := out + [Some(e.createAbstractResource(e.SupportedType(),
          RemoveFirst(res.name, ComputeApiPrefix), map["display_name" := Str(res.displayName)]))];
        assert Networks(e, resources[..i + 1]) == Networks(e, resources[..i]) + [Some(Network(e, res))];
      }
      assert resources[..|resources|] == resources;
      return Some(out), None;
  }

  /** A factory that keeps the type, id and attributes it is given. */
  ghost predicate KeepsArguments(create: (string, string, Doc) -> AbstractResource) {
    forall t, id, d :: create(t, id, d) == AbstractResource(id, t, d)
  }

  /** With such a factory, every created resource is a `google_compute_network` whose id is
      the asset's name without the first `//compute.googleapis.com/` and whose attributes are
      exactly its display name. */
  lemma NetworksDescribeAssets(e: Enumerator, assets: seq<Asset>, i: nat)
    requires KeepsArguments(e.createAbstractResource)
    requires i < |assets|
    ensures var r := Networks(e, assets)[i].value;
      && r.TerraformType() == GoogleComputeNetworkResourceType
      && r.TerraformId() == RemoveFirst(assets[i].name, ComputeApiPrefix)
      && r.attrs == map["display_name" := Str(assets[i].displayName)]
  {
  }
}
