/**
 * Magnet links (torrent/magnets.go): the `urn:<type>:<hash>` parameter, its
 * parser and its printer. `url.Parse` and `Query()` are not modelled; a link
 * reaches `ParseMagnet` already split into its query parameters.
 */
module Magnets {
  import opened Wrappers
  import opened GoStrings
  import Hex

  /** The only URN type the code decodes: a BitTorrent info-hash. */
  const BitTorrent := "btih"

  datatype MagnetLink = MagnetLink(urnType: string, urnHash: seq<Hex.byte>, trackerAddress: string)

  /** `parseUrn`'s three error returns: the missing prefix, the "?" error and the hex error. */
  datatype UrnError = NoUrnPrefix | NoTypeSeparator | BadHash(cause: Hex.DecodeError)

  /** What `url.Parse(s).Query()` gives: an error, or the first value of each key. */
  datatype Url = Unparsable(reason: string) | Parsed(query: map<string, string>)

  datatype MagnetError = UrlError(reason: string) | UrnFailure(cause: UrnError)

  /** `url.Values.Get`: the value of a key, or "" when it is absent. */
  function QueryGet(query: map<string, string>, key: string): (v: string)
    ensures key !in query ==> v == ""
    ensures key in query ==> v == query[key]
  {
    if key in query then query[key] else ""
  }

  /** `parseUrn`: the type up to the first ':' after "urn:", and for "btih" the hex-decoded rest. */
  function ParseUrn(s: string): (r: Result<(string, seq<Hex.byte>), UrnError>)
    ensures !HasPrefix(s, "urn:") ==> r == Err(NoUrnPrefix)
    ensures HasPrefix(s, "urn:") && ':' !in s[4..] ==> r == Err(NoTypeSeparator)
    ensures r.Ok? ==> HasPrefix(s, "urn:") && ':' in s[4..]
  {
    if !HasPrefix(s, "urn:") then Err(NoUrnPrefix)
    else
      var rest := TrimPrefix(s, "urn:");
      var p := Index(rest, ":");
      if p == -1 then
        assert forall i :: 0 <= i < |rest| ==> rest[i] != ':' by {
          forall i | 0 <= i < |rest| ensures rest[i] != ':' {
            assert !OccursAt(rest, ":", i);
            assert rest[i..i + 1] == [rest[i]];
          }
        }
        Err(NoTypeSeparator)
      else
        assert rest[p..p + 1] == ":";
        assert rest[p] == ':';
        var urnType := rest[..p];
        var tail := TrimPrefix(rest, urnType + ":");
        if urnType == BitTorrent then
          match Hex.Decode(tail)
          case Err(e) => Err(BadHash(e))
          case Ok(hash) => Ok((urnType, hash))
        else Ok((urnType, []))
  }

  /** The `urn:%s:%x` part of the link that `String` prints. */
  function Urn(m: MagnetLink): (u: string)
    ensures HasPrefix(u, "urn:" + m.urnType + ":")
    ensures Hex.Decode(u[|m.urnType| + 5..]) == Ok(m.urnHash)
    ensures forall i :: |m.urnType| + 5 <= i < |u| ==> Hex.IsLowerHexChar(u[i])
  {
    var head := "urn:" + m.urnType + ":";
    var u := head + Hex.Encode(m.urnHash);
    assert u[..|head|] == head && u[|head|..] == Hex.Encode(m.urnHash);
    assert forall i :: |head| <= i < |u| ==> u[i] == Hex.Encode(m.urnHash)[i - |head|];
    Hex.DecodeEncode(m.urnHash);
    u
  }

  /** `MagnetLink.String`: `magnet:?xt=urn:<type>:<hex>&tr=`, then the tracker address, which ends the text. */
  function ToString(m: MagnetLink): (s: string)
    ensures HasPrefix(s, "magnet:?xt=" + Urn(m) + "&tr=")
    ensures |s| == |"magnet:?xt=" + Urn(m) + "&tr="| + |m.trackerAddress|
    ensures s[|s| - |m.trackerAddress|..] == m.trackerAddress
  {
    var head := "magnet:?xt=" + Urn(m) + "&tr=";
    var s := head + m.trackerAddress;
    assert s[..|head|] == head && s[|head|..] == m.trackerAddress;
    s
  }

  /**
   * Every URN with a colon-free type splits at the first colon after the
   * prefix: the type is the text before it, and only for "btih" is the rest
   * decoded; any other type yields an empty hash whatever the rest holds.
   */
  lemma ParseUrnSplit(urnType: string, rest: string)
    requires ':' !in urnType
    ensures urnType == BitTorrent ==>
      ParseUrn("urn:" + urnType + ":" + rest) ==
        match Hex.Decode(rest) case Ok(h) => Ok((urnType, h)) case Err(e) => Err(BadHash(e))
    ensures urnType != BitTorrent ==> ParseUrn("urn:" + urnType + ":" + rest) == Ok((urnType, []))
  {
    var s := "urn:" + urnType + ":" + rest;
    assert s[..4] == "urn:";
    var t := TrimPrefix(s, "urn:");
    assert t == urnType + ":" + rest;
    var p := |urnType|;
    assert OccursAt(t, ":", p);
    forall i | 0 <= i < p ensures !OccursAt(t, ":", i) {
      assert t[i] == urnType[i];
    }
    assert Index(t, ":") == p;
    assert t[..p] == urnType;
    assert t[..p + 1] == urnType + ":";
    assert TrimPrefix(t, urnType + ":") == rest;
  }

  /** `parseUrn` reads back the type and hash of the `xt` part `String` prints for a BitTorrent link. */
  lemma ParseUrnOfString(m: MagnetLink)
    requires m.urnType == BitTorrent
    ensures ParseUrn(Urn(m)) == Ok((m.urnType, m.urnHash))
  {
    ParseUrnSplit(m.urnType, Hex.Encode(m.urnHash));
    Hex.DecodeEncode(m.urnHash);
  }

  /** `ParseMagnet`: fails when the URL or its `xt` URN fails; the tracker is `tr` or "". */
  function ParseMagnet(u: Url): (r: Result<MagnetLink, MagnetError>)
    ensures u.Unparsable? ==> r == Err(UrlError(u.reason))
    ensures u.Parsed? ==> (r.Ok? <==> ParseUrn(QueryGet(u.query, "xt")).Ok?)
    ensures u.Parsed? && r.Ok? ==>
      var urn := ParseUrn(QueryGet(u.query, "xt")).value;
      r.value == MagnetLink(urn.0, urn.1, QueryGet(u.query, "tr"))
    ensures u.Parsed? && r.Err? ==> r.error == UrnFailure(ParseUrn(QueryGet(u.query, "xt")).error)
  {
    match u
    case Unparsable(reason) => Err(UrlError(reason))
    case Parsed(query) =>
      match ParseUrn(QueryGet(query, "xt"))
      case Err(e) => Err(UrnFailure(e))
      case Ok(urn) => Ok(MagnetLink(urn.0, urn.1, QueryGet(query, "tr")))
  }

  /** A BitTorrent link survives printing its `xt` and `tr` values and parsing them back. */
  lemma ParseMagnetRoundTrip(m: MagnetLink)
    requires m.urnType == BitTorrent
    ensures ParseMagnet(Parsed(map["xt" := Urn(m), "tr" := m.trackerAddress])) == Ok(m)
  {
    ParseUrnOfString(m);
  }

  datatype HashError = UnknownType(urnType: string)

  /** `MagnetLink.HashStr`: the lower-case hex of the hash for "btih", an error for any other type. */
  function HashStr(m: MagnetLink): (r: Result<string, HashError>)
    ensures m.urnType != BitTorrent ==> r == Err(UnknownType(m.urnType))
    ensures m.urnType == BitTorrent ==> r.Ok? && |r.value| == 2 * |m.urnHash|
    ensures r.Ok? ==> Hex.Decode(r.value) == Ok(m.urnHash)
    ensures r.Ok? ==> forall i :: 0 <= i < |r.value| ==> Hex.IsLowerHexChar(r.value[i])
  {
    if m.urnType == BitTorrent then
      Hex.DecodeEncode(m.urnHash);
      Ok(Hex.Encode(m.urnHash))
    else Err(UnknownType(m.urnType))
  }
}
