/** The discovery store interface: backends, patches, requests and answers. */
module DiscoveryApi {
  import opened Types

  /** A compressed public key read as a big-endian number, so that numbers are ordered as keys are. */
  type Key = nat

  datatype Sparse = Sparse(
    name: Option<string>,
    partitions: set<string>,
    weight: u64,
    enabled: bool,
    implementation: Bytes)

  datatype Backend = Backend(key: Key, sparse: Sparse)

  /** `name` is absent, or present and null, or present with a value. */
  datatype PatchFields = PatchFields(
    name: Option<Option<string>>,
    partitions: Option<set<string>>,
    weight: Option<u64>,
    enabled: Option<bool>)

  /** `backends` is None when the caller's etag is still current. */
  datatype Backends = Backends(etag: u64, backends: Option<seq<Backend>>)

  datatype Request =
    | Get(key: Key)
    | GetAll(ifNoneMatch: Option<u64>)
    | Post(backend: Backend)
    | Put(backend: Backend)
    | Patch(key: Key, fields: PatchFields)
    | Delete(key: Key)

  datatype Answer =
    | Found(found: Option<Backend>)
    | All(all: Backends)
    | Posted(posted: Option<Key>)
    | Flag(flag: bool)
    | Failed(source: ErrorSource)

  /** The only record a request may write; None for the two reads. */
  function Target(req: Request): Option<Key> {
    match req
    case Get(_) => None
    case GetAll(_) => None
    case Post(b) => Some(b.key)
    case Put(b) => Some(b.key)
    case Patch(k, _) => Some(k)
    case Delete(k) => Some(k)
  }

  function Patched(s: Sparse, p: PatchFields): Sparse {
    s.(name := if p.name.Some? then p.name.value else s.name,
       partitions := if p.partitions.Some? then p.partitions.value else s.partitions,
       weight := if p.weight.Some? then p.weight.value else s.weight,
       enabled := if p.enabled.Some? then p.enabled.value else s.enabled)
  }
}
