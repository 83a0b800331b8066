/**
 * The torrent record (torrent/torrents.go) and its two renderings that are
 * not library formatting: the unit chosen by `HumanSize` and `BtihHex`.
 */
module Torrents {
  import opened Wrappers
  import Hex
  import Decimal

  type uint64 = x: int | 0 <= x < Decimal.Uint64Limit

  /**
   * A torrent. `body` is the description (markdown or HTML) and
   * `publicationTime` stands for a `time.Time`, kept abstract as an integer.
   */
  datatype Torrent = Torrent(title: string, body: string, btih: seq<Hex.byte>, publicationTime: int, size: uint64)

  datatype SizeUnit = SizeUnit(bytes: nat, name: string)

  /** The units `HumanSize` tries, largest first: 2^50, 2^40, 2^30, 2^20, 2^10 bytes. */
  const SizeUnits: seq<SizeUnit> := [
    SizeUnit(0x4_0000_0000_0000, "PiB"),
    SizeUnit(0x100_0000_0000, "TiB"),
    SizeUnit(0x4000_0000, "GiB"),
    SizeUnit(0x10_0000, "MiB"),
    SizeUnit(0x400, "KiB")]

  function Pow2(k: nat): (p: nat)
    ensures p >= 1
  {
    if k == 0 then 1 else 2 * Pow2(k - 1)
  }

  /** The unit table holds exactly the powers 2^(10*(5-i)), in descending order. */
  lemma SizeUnitsArePowers()
    ensures |SizeUnits| == 5
    ensures forall i :: 0 <= i < 5 ==> SizeUnits[i].bytes == Pow2(10 * (5 - i))
    ensures forall i, j :: 0 <= i < j < 5 ==> SizeUnits[i].bytes > SizeUnits[j].bytes
  {
    assert Pow2(10) == 0x400;
    assert Pow2(20) == 0x400 * Pow2(10) by { Pow2Add(10, 10); }
    assert Pow2(30) == 0x400 * Pow2(20) by { Pow2Add(10, 20); }
    assert Pow2(40) == 0x400 * Pow2(30) by { Pow2Add(10, 30); }
    assert Pow2(50) == 0x400 * Pow2(40) by { Pow2Add(10, 40); }
  }

  lemma {:induction false} Pow2Add(a: nat, b: nat)
    ensures Pow2(a + b) == Pow2(a) * Pow2(b)
  {
    if a > 0 {
      Pow2Add(a - 1, b);
    }
  }

  /** The position in `units` of the first unit that `size` reaches, or `|units|` when none does. */
  function FirstUnit(size: uint64, units: seq<SizeUnit>): (k: nat)
    requires forall i :: 0 <= i < |units| ==> units[i].bytes > 0
    ensures k <= |units|
    ensures forall i :: 0 <= i < k ==> size < units[i].bytes
    ensures k < |units| ==> size >= units[k].bytes
  {
    if units == [] then 0
    else
      ReachesUnit(size, units[0].bytes);
      if size / units[0].bytes > 0 then 0
      else 1 + FirstUnit(size, units[1..])
  }

  /** The source's test `size / u > 0` is the same as `size >= u`. */
  lemma ReachesUnit(size: nat, u: nat)
    requires u > 0
    ensures size / u > 0 <==> size >= u
  {
    var q, r := size / u, size % u;
    assert size == u * q + r && 0 <= r < u;
    if q > 0 {
      assert u * q >= u * 1;
    }
  }

  /**
   * `HumanSize`'s choice: `Scaled(u)` stands for "%.1f&nbsp;u" (the number
   * itself is not modelled), `Exact` for the literal text of a small size.
   */
  datatype SizeText = Scaled(unit: string) | Exact(text: string)

  function HumanSize(t: Torrent): (r: SizeText)
    ensures t.size < 0x400 ==> r == Exact(Decimal.Show(t.size) + "&nbsp;B")
    ensures t.size >= 0x400 ==> r.Scaled?
    ensures r.Scaled? ==> exists i :: (0 <= i < |SizeUnits| && r.unit == SizeUnits[i].name
      && t.size >= SizeUnits[i].bytes && forall j :: 0 <= j < i ==> t.size < SizeUnits[j].bytes)
  {
    var k := FirstUnit(t.size, SizeUnits);
    assert SizeUnits[4].bytes == 0x400;
    if k < |SizeUnits| then Scaled(SizeUnits[k].name)
    else Exact(Decimal.Show(t.size) + "&nbsp;B")
  }

  /** A larger size never gets a smaller unit: the unit index never increases with the size. */
  lemma UnitMonotone(a: uint64, b: uint64)
    requires a <= b
    ensures FirstUnit(b, SizeUnits) <= FirstUnit(a, SizeUnits)
  {
    var ka := FirstUnit(a, SizeUnits);
    if ka < |SizeUnits| {
      assert b >= SizeUnits[ka].bytes;
    }
  }

  /** `BtihHex`: twice as many lower-case hex digits as hash bytes, decoding back to the hash. */
  function BtihHex(t: Torrent): (s: string)
    ensures |s| == 2 * |t.btih|
    ensures forall i :: 0 <= i < |s| ==> Hex.IsLowerHexChar(s[i])
    ensures Hex.Decode(s) == Ok(t.btih)
  {
    Hex.DecodeEncode(t.btih);
    Hex.Encode(t.btih)
  }
}
