/** The CHS geometry a VHD footer records ("CHS Calculation" in the VHD specification). */
module Geometry {
  import opened Division

  const MAX_SECTORS := 65535 * 16 * 255
  const LARGE_DISK_FROM := 65535 * 16 * 63

  datatype Chs = Chs(cylinders: nat, heads: nat, sectors: nat)

  function CappedSectors(total: nat): nat {
    if total > MAX_SECTORS then MAX_SECTORS else total
  }

  /** The sectors a geometry is chosen for. */
  function Capped(total: nat): nat {
    if total > 267382800 then 267382800 else total
  }

  /** How many tracks of 17 sectors suit a disk: fewer than 16 * 1024, and from 4096 on not a
      whole multiple of 1024. */
  predicate Suits17(tracks: nat) {
    tracks < 16384 && (tracks < 4096 || tracks % 1024 != 0)
  }

  /** The geometry is the first of the four track sizes that suits. */
  predicate FirstFit(total: nat, g: Chs) {
    var t := Capped(total);
    && (g.sectors == 255 <==> total >= 66059280)
    && (g.sectors == 17 <==> total < 66059280 && Suits17(t / 17))
    && (g.sectors == 31 <==> total < 66059280 && !Suits17(t / 17) && t / 31 < 16384)
    && (g.sectors == 63 <==> total < 66059280 && !Suits17(t / 17) && t / 31 >= 16384)
    && (g.sectors != 17 ==> g.heads == 16)
    && (g.sectors == 17 ==> 4 <= g.heads <= 16 && t / 17 <= g.heads * 1024)
    && (g.sectors == 17 && g.heads > 4 ==> t / 17 > (g.heads - 1) * 1024)
  }

  /** CHSGeometry before its results are narrowed to 16, 8 and 8 bits. */
  method WideGeometry(total: nat) returns (g: Chs)
    ensures 4 <= g.heads <= 16 && g.sectors in {17, 31, 63, 255}
    ensures g.cylinders < 0x1_0000
    ensures g.cylinders == Capped(total) / g.sectors / g.heads
    ensures FirstFit(total, g)
  {
    var t := CappedSectors(total);
    var spt, h, cth;
    if t >= LARGE_DISK_FROM {
      spt, h := 255, 16;
      cth := t / spt;
    } else {
      spt := 17;
      cth := t / spt;
      h := if (cth + 1023) / 1024 < 4 then 4 else (cth + 1023) / 1024;
      if cth >= h * 1024 || h > 16 {
        spt, h := 31, 16;
        cth := t / spt;
      }
      if cth >= h * 1024 {
        spt, h := 63, 16;
        cth := t / spt;
      }
    }
    QuotientBelow(cth, h, 0x1_0000);
    return Chs(cth / h, h, spt);
  }

  /** CHSGeometry. Narrowing never truncates, the track size is the first that suits, and
      the geometry is the largest whole number of cylinders that fits: it never exceeds the
      sectors there are and falls short of them by less than one cylinder. */
  method ChsGeometry(total: nat) returns (g: Chs)
    ensures g.cylinders < 0x1_0000 && 4 <= g.heads <= 16 && g.sectors in {17, 31, 63, 255}
    ensures g.cylinders * g.heads * g.sectors <= Capped(total) < (g.cylinders + 1) * g.heads * g.sectors
    ensures FirstFit(total, g)
  {
    var wide := WideGeometry(total);
    g := Chs(wide.cylinders % 0x1_0000, wide.heads % 0x100, wide.sectors % 0x100);
    assert g == wide;
    WholeCylinders(Capped(total), g.sectors, g.heads);
  }

  lemma WholeCylinders(t: nat, s: nat, h: nat)
    requires s > 0 && h > 0
    ensures var c := t / s / h; c * h * s <= t < (c + 1) * h * s
  {
    var tracks := t / s;
    var c := tracks / h;
    assert c * h <= tracks < (c + 1) * h by {
      assert tracks == h * c + tracks % h;
    }
    assert t == s * tracks + t % s;
    MulMonotone(c * h, tracks, s);
    MulMonotone(tracks + 1, (c + 1) * h, s);
  }

  function PackGeometry(g: Chs): nat {
    g.cylinders * 0x1_0000 + g.heads * 0x100 + g.sectors
  }

  function UnpackGeometry(field: nat): Chs {
    Chs((field / 0x1_0000) % 0x1_0000, (field / 0x100) % 0x100, field % 0x100)
  }

  /** The footer field and the geometry determine each other. */
  lemma UnpackAfterPack(g: Chs)
    requires g.cylinders < 0x1_0000 && g.heads < 0x100 && g.sectors < 0x100
    ensures PackGeometry(g) < 0x1_0000_0000 && UnpackGeometry(PackGeometry(g)) == g
    ensures PackGeometry(g) / 0x1_0000 == g.cylinders
    ensures PackGeometry(g) / 0x100 % 0x100 == g.heads && PackGeometry(g) % 0x100 == g.sectors
  {
    var field := PackGeometry(g);
    QuotientIs(field, 0x1_0000, g.cylinders);
    QuotientIs(field, 0x100, g.cylinders * 0x100 + g.heads);
    QuotientIs(g.cylinders * 0x100 + g.heads, 0x100, g.cylinders);
    QuotientIs(g.cylinders, 0x1_0000, 0);
  }

  lemma PackAfterUnpack(field: nat)
    requires field < 0x1_0000_0000
    ensures PackGeometry(UnpackGeometry(field)) == field
  {
    var tracks := field / 0x100;
    QuotientIs(field, 0x1_0000, tracks / 0x100);
    QuotientIs(tracks / 0x100, 0x1_0000, 0);
    assert field == tracks * 0x100 + field % 0x100 && tracks == tracks / 0x100 * 0x100 + tracks % 0x100;
  }
}
