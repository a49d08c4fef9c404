/** read() as a whole: the binary reader, then the long names of the .hia sidecar (when
    asked for and present) replacing the station and parameter names. */
module HisRead {
  import opened Results
  import opened Bytes
  import opened His
  import Sidecar

  /** The dataset read(hisfile, hia) returns; `sidecar` is the parsed .hia file next to the
      HIS file, or None when there is no such file. */
  function ReadSpec(f: seq<byte>, hia: bool, sidecar: Option<Sidecar.Config>): Result<HisData, Error>
  {
    match Decode(f)
    case Err(e) => Err(e)
    case Ok(h) =>
      if !hia || sidecar.None? then Ok(h)
      else
        match Sidecar.Updated(h.locs, sidecar.value, Sidecar.LongLocations)
        case Err(e) => Err(e)
        case Ok(locs) =>
          match Sidecar.Updated(h.params, sidecar.value, Sidecar.LongParameters)
          case Err(e) => Err(e)
          case Ok(params) => Ok(h.(locs := locs, params := params))
  }

  /** Without a sidecar the result is the binary reader's; with one, a read that succeeds
      differs from it only in names, and keeps the number of stations and parameters. */
  lemma ReadSpecFacts(f: seq<byte>, hia: bool, sidecar: Option<Sidecar.Config>)
    ensures !hia || sidecar.None? ==> ReadSpec(f, hia, sidecar) == Decode(f)
    ensures Decode(f).Err? ==> ReadSpec(f, hia, sidecar) == Decode(f)
    ensures ReadSpec(f, hia, sidecar).Ok? ==>
      var h, r := Decode(f).value, ReadSpec(f, hia, sidecar).value;
      Decode(f).Ok? &&
      r.header == h.header && r.t0 == h.t0 && r.scu == h.scu && r.locnrs == h.locnrs &&
      r.times == h.times && r.data == h.data &&
      |r.locs| == |h.locs| && |r.params| == |h.params|
  {
    if Decode(f).Ok? && hia && sidecar.Some? {
      var h := Decode(f).value;
      var cfg := sidecar.value;
      if Sidecar.Updated(h.locs, cfg, Sidecar.LongLocations).Ok? {
        Sidecar.UpdatedLength(h.locs, cfg, Sidecar.LongLocations);
        if Sidecar.Updated(h.params, cfg, Sidecar.LongParameters).Ok? {
          Sidecar.UpdatedLength(h.params, cfg, Sidecar.LongParameters);
        }
      }
    }
  }

  method ToArray(s: seq<string>) returns (a: array<string>)
    ensures fresh(a) && a[..] == s
  {
    a := new string[|s|](i requires 0 <= i < |s| => s[i]);
  }

  /** read(hisfile, hia): the binary part, then locations and then parameters updated in
      place from the sidecar. */
  method Read(f: seq<byte>, hia: bool, sidecar: Option<Sidecar.Config>) returns (r: Result<HisData, Error>)
    ensures r == ReadSpec(f, hia, sidecar)
  {
    r := ReadBinary(f);
    if r.Err? || !hia || sidecar.None? {
      return;
    }
    var h := r.value;
    var locs := ToArray(h.locs);
    var err := Sidecar.UpdateLong(locs, sidecar.value, Sidecar.LongLocations);
    if err.Some? {
      return Err(err.value);
    }
    var params := ToArray(h.params);
    err := Sidecar.UpdateLong(params, sidecar.value, Sidecar.LongParameters);
    if err.Some? {
      return Err(err.value);
    }
    return Ok(h.(locs := locs[..], params := params[..]));
  }
}
