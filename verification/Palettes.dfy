/** The colour palette of libguac/src/palette.c, an open-addressing hash table,
    and its use by the PNG writer of libguac/src/encode-png.c. */
module Palettes {

  type Color = bv24

  datatype Rgb = Rgb(red: bv8, green: bv8, blue: bv8) {
    function Joined(): Color {
      ((red as bv24) << 16) | ((green as bv24) << 8) | (blue as bv24)
    }
  }

  /** The components stored in the palette determine the colour. */
  function Split(c: Color): (rgb: Rgb)
    ensures rgb.Joined() == c
  {
    Rgb(((c >> 16) & 0xFF) as bv8, ((c >> 8) & 0xFF) as bv8, (c & 0xFF) as bv8)
  }

  /** The colour of a pixel, without its alpha channel. */
  function ColorOf(pixel: bv32): Color {
    (pixel & 0xFFFFFF) as bv24
  }

  /** Two pixels have the same colour exactly if they agree without their alpha channels. */
  lemma SameColorIff(p: bv32, q: bv32)
    ensures ColorOf(p) == ColorOf(q) <==> p << 8 == q << 8
  {
  }

  /** The components are the three lower bytes of the pixel. */
  predicate ShowsPixel(rgb: Rgb, pixel: bv32) {
    && rgb.red == ((pixel >> 16) & 0xFF) as bv8 && rgb.green == ((pixel >> 8) & 0xFF) as bv8
    && rgb.blue == (pixel & 0xFF) as bv8
  }

  lemma JoinedComponents(rgb: Rgb)
    ensures var c := rgb.Joined();
      ((c >> 16) & 0xFF) as bv8 == rgb.red && ((c >> 8) & 0xFF) as bv8 == rgb.green && (c & 0xFF) as bv8 == rgb.blue
  {
  }

  lemma ColorComponents(pixel: bv32)
    ensures var c := ColorOf(pixel);
      && ((c >> 16) & 0xFF) as bv8 == ((pixel >> 16) & 0xFF) as bv8
      && ((c >> 8) & 0xFF) as bv8 == ((pixel >> 8) & 0xFF) as bv8 && (c & 0xFF) as bv8 == (pixel & 0xFF) as bv8
  {
  }

  lemma JoinedShows(rgb: Rgb, pixel: bv32)
    requires rgb.Joined() == ColorOf(pixel)
    ensures ShowsPixel(rgb, pixel)
  {
    hide Rgb.Joined, ColorOf;
    JoinedComponents(rgb);
    ColorComponents(pixel);
  }

  const BUCKETS := 0x1000
  const CAPACITY := 256

  function Hash(c: Color): (h: nat)
    ensures h < BUCKETS
  {
    (((c & 0xFFF000) >> 12) ^ (c & 0xFFF)) as bv12 as nat
  }

  // ----- the reference: distinct colours, numbered by first appearance -----

  function Distinct(colors: seq<Color>): (d: seq<Color>)
    ensures forall i, j :: 0 <= i < j < |d| ==> d[i] != d[j]
    ensures forall c :: c in d <==> c in colors
  {
    if colors == [] then []
    else
      var front, last := colors[..|colors| - 1], colors[|colors| - 1];
      assert colors == front + [last];
      var d := Distinct(front);
      if last in d then d else d + [last]
  }

  ghost function ColorSet(colors: seq<Color>): set<Color> {
    set c | c in colors
  }

  lemma DistinctOfNone()
    ensures Distinct([]) == []
  {
  }

  lemma DistinctOfMore(colors: seq<Color>, last: Color)
    ensures Distinct(colors + [last]) == if last in colors then Distinct(colors) else Distinct(colors) + [last]
  {
    assert (colors + [last])[..|colors|] == colors;
  }

  /** Later pixels only append to the numbering. */
  lemma {:induction false} DistinctGrows(colors: seq<Color>, more: seq<Color>)
    ensures Distinct(colors) <= Distinct(colors + more)
  {
    hide Distinct;
    if more == [] {
      assert colors + more == colors;
    } else {
      var front, last := more[..|more| - 1], more[|more| - 1];
      DistinctGrows(colors, front);
      DistinctOfMore(colors + front, last);
      assert colors + more == colors + front + [last];
    }
  }

  /** The numbering is exactly as long as the set of colours is large. */
  lemma {:induction false} DistinctCounts(colors: seq<Color>)
    ensures |Distinct(colors)| == |ColorSet(colors)|
  {
    hide Distinct;
    if colors == [] {
      DistinctOfNone();
    } else {
      var front, last := colors[..|colors| - 1], colors[|colors| - 1];
      DistinctCounts(front);
      assert colors == front + [last];
      var before := ColorSet(front);
      assert ColorSet(colors) == before + {last};
      DistinctOfMore(front, last);
      if last in front {
        assert before + {last} == before;
      } else {
        assert |before + {last}| == |before| + 1;
      }
    }
  }

  /** The colours of the first x pixels of row y, and of the rows above y. */
  ghost function RowColors(img: array2<bv32>, y: nat, x: nat): seq<Color>
    requires y < img.Length0 && x <= img.Length1
    reads img
  {
    if x == 0 then [] else RowColors(img, y, x - 1) + [ColorOf(img[y, x - 1])]
  }

  ghost function Colors(img: array2<bv32>, y: nat): seq<Color>
    requires y <= img.Length0
    reads img
  {
    if y == 0 then [] else Colors(img, y - 1) + RowColors(img, y - 1, img.Length1)
  }

  lemma NoColors(img: array2<bv32>)
    ensures Distinct(Colors(img, 0)) == []
  {
    DistinctOfNone();
  }

  lemma {:induction false} RowColorsPrefix(img: array2<bv32>, y: nat, x: nat, z: nat)
    requires y < img.Length0 && x <= z <= img.Length1
    ensures RowColors(img, y, x) <= RowColors(img, y, z)
  {
    if x < z {
      RowColorsPrefix(img, y, x, z - 1);
    }
  }

  lemma {:induction false} ColorsPrefix(img: array2<bv32>, y: nat, z: nat)
    requires y <= z <= img.Length0
    ensures Colors(img, y) <= Colors(img, z)
  {
    if y < z {
      ColorsPrefix(img, y, z - 1);
    }
  }

  lemma {:induction false} InRow(img: array2<bv32>, y: nat, x: nat, c: Color)
    requires y < img.Length0 && x <= img.Length1
    ensures c in RowColors(img, y, x) <==> exists i :: 0 <= i < x && ColorOf(img[y, i]) == c
  {
    hide ColorOf;
    if x > 0 {
      InRow(img, y, x - 1, c);
    }
  }

  /** They are the colours of the pixels there, and no others. */
  lemma {:induction false} InColors(img: array2<bv32>, y: nat, c: Color)
    requires y <= img.Length0
    ensures c in Colors(img, y) <==> exists j, i :: 0 <= j < y && 0 <= i < img.Length1 && ColorOf(img[j, i]) == c
  {
    hide ColorOf, RowColors;
    if y > 0 {
      InColors(img, y - 1, c);
      InRow(img, y - 1, img.Length1, c);
    }
  }

  /** The colours seen when the scan stands at (x, y). */
  ghost function Seen(img: array2<bv32>, y: nat, x: nat): seq<Color>
    requires y < img.Length0 && x <= img.Length1
    reads img
  {
    Colors(img, y) + RowColors(img, y, x)
  }

  /** The next pixel's colour is appended to the numbering unless it is there. */
  lemma SeenNext(img: array2<bv32>, y: nat, x: nat)
    requires y < img.Length0 && x < img.Length1
    ensures var d, c := Distinct(Seen(img, y, x)), ColorOf(img[y, x]);
      Distinct(Seen(img, y, x + 1)) == if c in d then d else d + [c]
  {
    hide Distinct;
    DistinctOfMore(Seen(img, y, x), ColorOf(img[y, x]));
    assert Seen(img, y, x) + [ColorOf(img[y, x])] == Seen(img, y, x + 1);
  }

  lemma SeenRow(img: array2<bv32>, y: nat)
    requires y < img.Length0
    ensures Seen(img, y, 0) == Colors(img, y) && Seen(img, y, img.Length1) == Colors(img, y + 1)
  {
  }

  /** The colours seen begin those of the image. */
  lemma SeenPrefix(img: array2<bv32>, y: nat, x: nat)
    requires y < img.Length0 && x <= img.Length1
    ensures Seen(img, y, x) <= Colors(img, img.Length0)
  {
    RowColorsPrefix(img, y, x, img.Length1);
    ColorsPrefix(img, y + 1, img.Length0);
  }

  // ----- linear probing -----

  /** Steps from bucket h to bucket k, going round. */
  function Distance(h: int, k: int): int {
    if k >= h then k - h else k + BUCKETS - h
  }

  lemma {:induction false} SubsetSize<T>(a: set<T>, b: set<T>)
    requires a <= b
    ensures |a| <= |b|
  {
    if a != {} {
      var x :| x in a;
      SubsetSize(a - {x}, b - {x});
    }
  }

  ghost function Range(n: nat): (r: set<int>)
    ensures |r| == n && forall k :: k in r <==> 0 <= k < n
  {
    if n == 0 then {} else Range(n - 1) + {n - 1}
  }

  lemma {:induction false} MembersSize(s: seq<int>)
    ensures |set k | k in s| <= |s|
  {
    if s != [] {
      MembersSize(s[1..]);
      assert s == [s[0]] + s[1..];
      assert (set k | k in s) == (set k | k in s[1..]) + {s[0]};
    }
  }

  /** Fewer slots than buckets leave a bucket free. */
  lemma FreeBucket(slots: seq<int>) returns (free: int)
    requires |slots| < BUCKETS
    ensures 0 <= free < BUCKETS && free !in slots
  {
    var all, taken := Range(BUCKETS), set k | k in slots;
    MembersSize(slots);
    if all <= taken {
      SubsetSize(all, taken);
      assert false;
    }
    free :| free in all && free !in taken;
  }

  datatype Entry = Entry(index: int, color: Color)

  class Palette {
    const entries: array<Entry>
    const colors: array<Rgb>
    var size: int
    /** The colours by number, and the buckets that hold them. */
    ghost var listed: seq<Color>
    ghost var slots: seq<int>

    /** The entries and the numbering describe the same colours. */
    ghost predicate Stored()
      reads this, entries, colors
    {
      && entries.Length == BUCKETS && colors.Length == CAPACITY
      && 0 <= size <= CAPACITY && |listed| == |slots| == size
      && (forall i :: 0 <= i < size ==> 0 <= slots[i] < BUCKETS && entries[slots[i]] == Entry(i + 1, listed[i]))
      && (forall i :: 0 <= i < size ==> colors[i].Joined() == listed[i])
      && (forall k :: 0 <= k < BUCKETS && entries[k].index != 0 ==>
            1 <= entries[k].index <= size && slots[entries[k].index - 1] == k)
    }

    /** The probe path of the colour to bucket k passes over occupied buckets only. */
    ghost predicate Reaches(color: Color, k: int)
      requires entries.Length == BUCKETS
      reads this, entries
    {
      forall j :: 0 <= j < BUCKETS && Distance(Hash(color), j) < Distance(Hash(color), k) ==> entries[j].index != 0
    }

    ghost predicate Valid()
      reads this, entries, colors
      ensures Valid() ==> entries.Length == BUCKETS && colors.Length == CAPACITY && |listed| == size <= CAPACITY
    {
      Stored() && forall i :: 0 <= i < size ==> Reaches(listed[i], slots[i])
    }

    constructor ()
      ensures Valid() && listed == [] && fresh(entries) && fresh(colors)
    {
      entries := new Entry[BUCKETS](i => Entry(0, 0));
      colors := new Rgb[CAPACITY](i => Rgb(0, 0, 0));
      size, listed, slots := 0, [], [];
    }

    lemma FreeEntry() returns (free: int)
      requires Valid()
      ensures 0 <= free < BUCKETS && entries[free].index == 0
    {
      free := FreeBucket(slots);
    }

    /** A colour that its probe path, up to a free bucket, does not meet is not listed. */
    lemma Absent(color: Color, hash: int)
      requires Valid() && 0 <= hash < BUCKETS && entries[hash].index == 0
      requires forall k :: 0 <= k < BUCKETS && Distance(Hash(color), k) < Distance(Hash(color), hash) ==>
        entries[k].color != color
      ensures color !in listed
    {
      hide Hash, Rgb.Joined;
      forall i | 0 <= i < size ensures listed[i] != color {
        assert Reaches(listed[i], slots[i]) && entries[slots[i]].color == listed[i];
      }
    }

    lemma Numbered(i: int)
      requires Valid() && 0 <= i < size
      ensures colors[i].Joined() == listed[i]
    {
    }

    lemma Present(k: int)
      requires Valid() && 0 <= k < BUCKETS && entries[k].index != 0
      ensures 1 <= entries[k].index <= size && listed[entries[k].index - 1] == entries[k].color
      ensures colors[entries[k].index - 1].Joined() == entries[k].color
    {
      assert entries[slots[entries[k].index - 1]] == entries[k];
    }

    /** The probe loop shared by guac_palette_alloc and guac_palette_find: the
        bucket of the colour if it is listed, otherwise the free one where its
        probe path ends. */
    method Probe(color: Color) returns (hash: int)
      requires Valid()
      ensures 0 <= hash < BUCKETS
      ensures entries[hash].index != 0 ==> entries[hash].color == color
      ensures entries[hash].index == 0 ==> color !in listed && Reaches(color, hash)
    {
      hide Hash, Valid;
      hash := Hash(color);
      ghost var free := FreeEntry();
      while entries[hash].index != 0 && entries[hash].color != color
        invariant 0 <= hash < BUCKETS
        invariant forall k :: 0 <= k < BUCKETS && Distance(Hash(color), k) < Distance(Hash(color), hash) ==>
          entries[k].index != 0 && entries[k].color != color
        decreases BUCKETS - Distance(Hash(color), hash)
      {
        assert Distance(Hash(color), hash) < Distance(Hash(color), free);
        hash := (hash + 1) % BUCKETS;
      }
      if entries[hash].index == 0 {
        Absent(color, hash);
      }
    }

    /** guac_palette_find */
    method Find(color: Color) returns (index: int)
      requires Valid()
      ensures -1 <= index < size
      ensures index == -1 <==> color !in listed
      ensures index >= 0 ==> listed[index] == color && colors[index].Joined() == color
    {
      hide Valid;
      var hash := Probe(color);
      if entries[hash].index == 0 {
        return -1;
      }
      Present(hash);
      return entries[hash].index - 1;
    }

    /** Gives a new colour the next number, in a free bucket. */
    method Number(color: Color, hash: int)
      requires Stored() && size < CAPACITY && 0 <= hash < BUCKETS && entries[hash].index == 0
      modifies this, entries, colors
      ensures Stored() && listed == old(listed) + [color] && slots == old(slots) + [hash]
      ensures forall k :: 0 <= k < BUCKETS && old(entries[k]).index != 0 ==> entries[k].index != 0
    {
      hide Split, Rgb.Joined;
      colors[size] := Split(color);
      size := size + 1;
      entries[hash] := Entry(size, color);
      listed, slots := listed + [color], slots + [hash];
    }

    /** Stores a new colour in the free bucket at the end of its probe path. */
    method Insert(color: Color, hash: int)
      requires Valid() && size < CAPACITY && color !in listed
      requires 0 <= hash < BUCKETS && entries[hash].index == 0 && Reaches(color, hash)
      modifies this, entries, colors
      ensures Valid() && listed == old(listed) + [color]
    {
      hide Hash;
      Number(color, hash);
      forall i | 0 <= i < size ensures Reaches(listed[i], slots[i]) {
        assert i < size - 1 ==> old(Reaches(listed[i], slots[i]));
      }
    }

    /** The body of the loop over the pixels in guac_palette_alloc. */
    method Add(color: Color) returns (ok: bool)
      requires Valid()
      modifies this, entries, colors
      ensures Valid()
      ensures ok <==> color in old(listed) || |old(listed)| < CAPACITY
      ensures listed == if color in old(listed) || !ok then old(listed) else old(listed) + [color]
    {
      hide Valid;
      var hash := Probe(color);
      if entries[hash].index != 0 {
        Present(hash);
        return true;
      }
      if size == CAPACITY {
        return false;
      }
      Insert(color, hash);
      return true;
    }
  }

  /** Once the pixels seen have more colours than fit, so has the image. */
  lemma TooMany(img: array2<bv32>, y: nat, x: nat)
    requires y < img.Length0 && x <= img.Length1
    requires |Distinct(Seen(img, y, x))| > CAPACITY
    ensures |ColorSet(Colors(img, img.Length0))| > CAPACITY
  {
    hide ColorSet, Distinct, ColorOf, Colors, RowColors;
    SeenPrefix(img, y, x);
    var seen, all := Seen(img, y, x), Colors(img, img.Length0);
    assert all == seen + all[|seen|..];
    DistinctGrows(seen, all[|seen|..]);
    DistinctCounts(all);
  }

  /** guac_palette_alloc: NULL exactly for images of more than 256 colours. */
  method Alloc(img: array2<bv32>) returns (palette: Palette?)
    ensures palette == null <==> |ColorSet(Colors(img, img.Length0))| > CAPACITY
    ensures palette != null ==>
      fresh(palette) && palette.Valid() && palette.listed == Distinct(Colors(img, img.Length0))
  {
    hide Hash, ColorOf, Split, Distinct, Rgb.Joined, Palette.Valid, ColorSet, Seen, Colors, RowColors;
    palette := new Palette();
    var p: Palette := palette;
    NoColors(img);
    var y := 0;
    while y < img.Length0
      invariant 0 <= y <= img.Length0 && palette == p
      invariant p.Valid() && fresh(p) && fresh(p.entries) && fresh(p.colors) && p.listed == Distinct(Colors(img, y))
    {
      var x := 0;
      SeenRow(img, y);
      while x < img.Length1
        invariant 0 <= x <= img.Length1 && palette == p
        invariant p.Valid() && fresh(p) && fresh(p.entries) && fresh(p.colors)
        invariant p.listed == Distinct(Seen(img, y, x))
      {
        var color := ColorOf(img[y, x]);
        SeenNext(img, y, x);
        var ok := p.Add(color);
        if !ok {
          TooMany(img, y, x + 1);
          return null;
        }
        x := x + 1;
      }
      y := y + 1;
    }
    DistinctCounts(Colors(img, img.Length0));
  }

  // ----- indexed PNG rows -----

  /** The bits per pixel chosen for a palette of this size. */
  function Depth(size: int): int {
    if size <= 2 then 1 else if size <= 4 then 2 else if size <= 16 then 4 else 8
  }

  /** It is the least of the depths that PNG allows which has a level for every colour. */
  lemma DepthIsLeast(size: int)
    requires 0 <= size <= CAPACITY
    ensures size <= Levels(Depth(size))
    ensures forall depth :: (depth == 1 || depth == 2 || depth == 4 || depth == 8) && size <= Levels(depth) ==>
      Depth(size) <= depth
  {
  }

  function Levels(depth: int): int {
    if depth == 1 then 2 else if depth == 2 then 4 else if depth == 4 then 16 else 256
  }

  /** The pixels before (x, y) have been replaced by the numbers of their colours. */
  ghost predicate Indexed(img: array2<bv32>, listed: seq<Color>, rows: array2<int>, y: int, x: int)
    reads img, rows
  {
    && rows.Length0 == img.Length0 && rows.Length1 == img.Length1
    && forall j, i :: 0 <= j < img.Length0 && 0 <= i < img.Length1 && (j < y || (j == y && i < x)) ==>
         0 <= rows[j, i] < |listed| && listed[rows[j, i]] == ColorOf(img[j, i])
  }

  method StoreIndex(img: array2<bv32>, ghost listed: seq<Color>, rows: array2<int>, y: int, x: int, index: int)
    requires 0 <= y < img.Length0 && 0 <= x < img.Length1 && Indexed(img, listed, rows, y, x)
    requires 0 <= index < |listed| && listed[index] == ColorOf(img[y, x]) && (rows as object) != img
    modifies rows
    ensures Indexed(img, listed, rows, y, x + 1)
  {
    hide ColorOf;
    rows[y, x] := index;
  }

  lemma NextIndexRow(img: array2<bv32>, listed: seq<Color>, rows: array2<int>, y: int)
    requires Indexed(img, listed, rows, y, img.Length1)
    ensures Indexed(img, listed, rows, y + 1, 0)
  {
  }

  /** The rows that guac_png_write hands to libpng: looked up in the palette they
      give back every pixel's colour, and each index fits the bit depth. */
  method WriteRows(img: array2<bv32>) returns (palette: Palette?, depth: int, rows: array2<int>)
    ensures palette == null <==> |ColorSet(Colors(img, img.Length0))| > CAPACITY
    ensures palette != null ==> palette.Valid() && depth == Depth(palette.size)
    ensures palette != null ==> rows.Length0 == img.Length0 && rows.Length1 == img.Length1
    ensures palette != null ==>
      forall y, x :: 0 <= y < img.Length0 && 0 <= x < img.Length1 ==>
        && 0 <= rows[y, x] < palette.size && rows[y, x] < Levels(depth)
        && var rgb := palette.colors[rows[y, x]];
           rgb.red == ((img[y, x] >> 16) & 0xFF) as bv8 && rgb.green == ((img[y, x] >> 8) & 0xFF) as bv8 &&
           rgb.blue == (img[y, x] & 0xFF) as bv8
  {
    hide Hash, ColorOf, Split, Distinct, Rgb.Joined, Palette.Valid, ColorSet;
    palette := Alloc(img);
    depth, rows := 0, new int[0, 0];
    if palette == null {
      return;
    }
    depth := Depth(palette.size);
    rows := FillRows(img, palette);
    forall i | 0 <= i < palette.size ensures palette.colors[i].Joined() == palette.listed[i] {
      palette.Numbered(i);
    }
    forall y, x | 0 <= y < img.Length0 && 0 <= x < img.Length1
      ensures ShowsPixel(palette.colors[rows[y, x]], img[y, x])
    {
      JoinedShows(palette.colors[rows[y, x]], img[y, x]);
    }
  }

  method FillRows(img: array2<bv32>, palette: Palette) returns (rows: array2<int>)
    requires palette.Valid() && palette.listed == Distinct(Colors(img, img.Length0))
    ensures fresh(rows) && Indexed(img, palette.listed, rows, img.Length0, 0)
  {
    hide ColorOf, Distinct, Palette.Valid, Indexed, Rgb.Joined;
    rows := new int[img.Length0, img.Length1];
    NothingIndexed(img, palette.listed, rows);
    var y := 0;
    while y < img.Length0
      invariant 0 <= y <= img.Length0 && Indexed(img, palette.listed, rows, y, 0)
      modifies rows
    {
      var x := 0;
      while x < img.Length1
        invariant 0 <= x <= img.Length1 && Indexed(img, palette.listed, rows, y, x)
        modifies rows
      {
        Listed(img, y, x);
        var index := palette.Find(ColorOf(img[y, x]));
        StoreIndex(img, palette.listed, rows, y, x, index);
        x := x + 1;
      }
      NextIndexRow(img, palette.listed, rows, y);
      y := y + 1;
    }
  }

  lemma NothingIndexed(img: array2<bv32>, listed: seq<Color>, rows: array2<int>)
    requires rows.Length0 == img.Length0 && rows.Length1 == img.Length1
    ensures Indexed(img, listed, rows, 0, 0)
  {
  }

  lemma Listed(img: array2<bv32>, y: nat, x: nat)
    requires y < img.Length0 && x < img.Length1
    ensures ColorOf(img[y, x]) in Colors(img, img.Length0)
  {
    SeenPrefix(img, y, x + 1);
    var seen := Seen(img, y, x + 1);
    assert seen[|seen| - 1] == ColorOf(img[y, x]);
  }
}
