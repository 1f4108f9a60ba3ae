/**
 From blocks to sectors: the skew table, and reading and writing blocks on a
 disk of tracks and sectors.
*/
module CpmBlocks {
  import opened Bits
  import opened Division

  // ------------------------------------------------------- the skew table

  ghost predicate Distinct(s: seq<nat>) {
    forall i, j :: 0 <= i < j < |s| ==> s[i] != s[j]
  }

  /** Every number below n occurs exactly once. */
  ghost predicate Permutation(s: seq<nat>, n: nat) {
    |s| == n && (forall i :: 0 <= i < n ==> s[i] < n) && Distinct(s)
  }

  /** Fewer than n numbers leave one below n free. */
  lemma {:induction false} SomeFree(s: seq<nat>, n: nat) returns (f: nat)
    requires |s| < n
    ensures f < n && f !in s
    decreases n
  {
    f := n - 1;
    if f in s {
      var i :| 0 <= i < |s| && s[i] == n - 1;
      var rest := s[..i] + s[i + 1..];
      f := SomeFree(rest, n - 1);
      forall k | 0 <= k < |s| ensures s[k] != f {
        if k < i { assert s[k] == rest[k]; } else if k > i { assert s[k] == rest[k - 1]; }
      }
    }
  }

  /** How many steps it is from j up to f, wrapping round. */
  ghost function Distance(f: nat, j: nat, n: nat): nat
    requires f < n && j < n
  {
    (f + n - j) % n
  }

  lemma {:induction false} DistanceBelow(f: nat, j: nat, n: nat)
    requires f < n && j < n
    ensures 0 <= Distance(f, j, n) < n
  {
  }

  /** Walking round from j one step brings a different number f nearer. */
  lemma {:induction false} Nearer(f: nat, j: nat, n: nat)
    requires f < n && j < n && f != j
    ensures Distance(f, (j + 1) % n, n) < Distance(f, j, n)
  {
    var j' := if j + 1 == n then 0 else j + 1;
    assert (j + 1) % n == j' by { if j + 1 == n { assert n % n == 0; } else { SmallMod(j + 1, n); } }
    if f > j {
      WrapMod(f - j, n);
      if f > j' { WrapMod(f - j', n); } else { assert f + n - j' == n; }
    } else {
      SmallMod(f + n - j, n);
      if j' == 0 { if f == 0 { assert f + n - j' == n; } else { WrapMod(f, n); } } else { SmallMod(f + n - j', n); }
    }
  }

  /** Of the numbers from start on, wrapping round, j is the first that is not in s. */
  ghost predicate FirstFree(s: seq<nat>, n: nat, start: nat, j: nat)
    requires n > 0
  {
    exists d :: FreeAfter(s, n, start, d, j)
  }

  /** d places after start, wrapping round. */
  ghost function Onward(start: nat, d: nat, n: nat): (j: nat)
    requires n > 0
    ensures j < n
  {
    (start + d) % n
  }

  /** j comes d places after start, and what comes before it is in s. */
  ghost predicate FreeAfter(s: seq<nat>, n: nat, start: nat, d: nat, j: nat)
    requires n > 0
  {
    d < n && j == Onward(start, d, n) && j !in s && forall e :: 0 <= e < d ==> Onward(start, e, n) in s
  }

  lemma {:induction false} FoundFree(s: seq<nat>, n: nat, start: nat, d: nat, j: nat)
    requires n > 0 && FreeAfter(s, n, start, d, j)
    ensures FirstFree(s, n, start, j)
  {
  }

  lemma {:induction false} FreeMeans(s: seq<nat>, n: nat, start: nat, j: nat)
    requires n > 0 && FirstFree(s, n, start, j)
    ensures j !in s
  {
  }

  lemma {:induction false} EmptyTable(n: nat, skew: nat)
    ensures Skewed([], n, skew)
  {
  }

  lemma {:induction false} OneFirstFree(s: seq<nat>, n: nat, start: nat, j: nat, j': nat)
    requires n > 0 && FirstFree(s, n, start, j) && FirstFree(s, n, start, j')
    ensures j == j'
  {
    hide Onward;
    var d: nat :| FreeAfter(s, n, start, d, j);
    var d': nat :| FreeAfter(s, n, start, d', j');
  }

  /** The table begins with 0, and each sector is the first free one from skew places after the one before on. */
  ghost predicate Skewed(tab: seq<nat>, n: nat, skew: nat) {
    && |tab| <= n && (|tab| > 0 ==> tab[0] == 0)
    && forall i {:trigger SkewedAt(tab, n, skew, i)} :: 0 < i < |tab| ==> SkewedAt(tab, n, skew, i)
  }

  ghost predicate SkewedAt(tab: seq<nat>, n: nat, skew: nat, i: nat)
    requires 0 < i < |tab| <= n
  {
    FirstFree(tab[..i], n, tab[i - 1] + skew, tab[i])
  }

  lemma {:induction false} SkewedMore(tab: seq<nat>, n: nat, skew: nat, j: nat)
    requires Skewed(tab, n, skew) && |tab| < n
    requires if tab == [] then j == 0 else FirstFree(tab, n, tab[|tab| - 1] + skew, j)
    ensures Skewed(tab + [j], n, skew)
  {
    var r := tab + [j];
    forall i | 0 < i < |r| ensures SkewedAt(r, n, skew, i) {
      assert r[..i] == tab[..i];
      if i < |tab| { assert SkewedAt(tab, n, skew, i); } else { assert r[..i] == tab; }
    }
  }

  /** Sectors per track and skew determine the table. */
  lemma {:induction false} OneSkewTable(tab: seq<nat>, tab': seq<nat>, n: nat, skew: nat)
    requires Skewed(tab, n, skew) && Skewed(tab', n, skew) && |tab| == |tab'|
    ensures tab == tab'
  {
    hide FirstFree;
    SkewPrefix(tab, tab', n, skew, |tab|);
    assert tab[..|tab|] == tab && tab'[..|tab|] == tab';
  }

  lemma {:induction false} SkewPrefix(tab: seq<nat>, tab': seq<nat>, n: nat, skew: nat, k: nat)
    requires Skewed(tab, n, skew) && Skewed(tab', n, skew) && k <= |tab| == |tab'|
    ensures tab[..k] == tab'[..k]
  {
    hide FirstFree;
    if k > 0 {
      var i := k - 1;
      SkewPrefix(tab, tab', n, skew, i);
      if i > 0 {
        assert SkewedAt(tab, n, skew, i) && SkewedAt(tab', n, skew, i);
        assert tab[..i][i - 1] == tab'[..i][i - 1];
        OneFirstFree(tab[..i], n, tab[i - 1] + skew, tab[i], tab'[i]);
      }
      assert tab[..k] == tab[..i] + [tab[i]] && tab'[..k] == tab'[..i] + [tab'[i]];
    }
  }

  /** The multiples of the skew up to the i-th leave different remainders. */
  ghost predicate Unrepeated(n: nat, skew: nat, i: nat)
    requires n > 0
  {
    forall a, b {:trigger Multiple(a, skew, n), Multiple(b, skew, n)} :: 0 <= a < b <= i ==> Multiple(a, skew, n) != Multiple(b, skew, n)
  }

  ghost function Multiple(i: nat, skew: nat, n: nat): nat
    requires n > 0
  {
    i * skew % n
  }

  /** As long as the multiples of the skew do not repeat, they are the table. */
  lemma {:induction false} SkewMultiples(tab: seq<nat>, n: nat, skew: nat, i: nat)
    requires n > 0 && Skewed(tab, n, skew) && i < |tab| && Unrepeated(n, skew, i)
    ensures tab[i] == i * skew % n
  {
    hide FirstFree, Multiple;
    MultipleIs(i, skew, n);
    if i > 0 {
      forall a | 0 <= a < i ensures tab[a] == Multiple(a, skew, n) {
        SkewMultiples(tab, n, skew, a);
        MultipleIs(a, skew, n);
      }
      NextMultiple(i - 1, skew, n);
      assert SkewedAt(tab, n, skew, i);
      NotAmong(tab[..i], n, skew);
      NotTaken(tab[..i], n, tab[i - 1] + skew, tab[i]);
    }
  }

  lemma {:induction false} MultipleIs(i: nat, skew: nat, n: nat)
    requires n > 0
    ensures Multiple(i, skew, n) == i * skew % n
  {
  }

  lemma {:induction false} NotAmong(s: seq<nat>, n: nat, skew: nat)
    requires n > 0 && Unrepeated(n, skew, |s|) && forall a :: 0 <= a < |s| ==> s[a] == Multiple(a, skew, n)
    ensures Multiple(|s|, skew, n) !in s
  {
    hide Multiple;
  }

  /** The table of an IBM 3740 disk: 26 sectors, skew 6. */
  const IBM3740: seq<nat> := [0, 6, 12, 18, 24, 4, 10, 16, 22, 2, 8, 14, 20, 1, 7, 13, 19, 25, 5, 11, 17, 23, 3, 9, 15, 21]

  lemma {:induction false} Ibm3740(tab: seq<nat>)
    requires Skewed(tab, 26, 6) && |tab| == 26
    ensures tab == IBM3740
  {
    hide FirstFree;
    IbmPrefix(26);
    assert IBM3740[..26] == IBM3740;
    OneSkewTable(tab, IBM3740, 26, 6);
  }

  lemma {:induction false} IbmPrefix(k: nat)
    requires k <= 26
    ensures Skewed(IBM3740[..k], 26, 6)
  {
    hide FirstFree, Skewed;
    if k == 0 {
      EmptyTable(26, 6);
    } else {
      IbmPrefix(k - 1);
      IbmNext(k - 1);
      SkewedMore(IBM3740[..k - 1], 26, 6, IBM3740[k - 1]);
      assert IBM3740[..k] == IBM3740[..k - 1] + [IBM3740[k - 1]];
    }
  }

  lemma {:induction false} IbmNext(i: nat)
    requires i < 26
    ensures if i == 0 then IBM3740[i] == 0 else FirstFree(IBM3740[..i], 26, IBM3740[i - 1] + 6, IBM3740[i])
  {
    hide FirstFree;
    if i > 0 {
      IbmSteps(i);
      forall a | 0 <= a < i ensures IBM3740[..i][a] != IBM3740[i] { IbmDistinct(a, i); }
      hide IBM3740;
      if i == 13 { assert IBM3740[..i][0] == 0; }
      IbmFree(IBM3740[..i], IBM3740[i - 1] + 6, if i == 13 then 1 else 0, IBM3740[i]);
    }
  }

  lemma {:induction false} IbmSteps(i: nat)
    requires 0 < i < 26
    ensures IBM3740[0] == 0 && IBM3740[i] == (IBM3740[i - 1] + 6 + if i == 13 then 1 else 0) % 26
  {
  }

  lemma {:induction false} IbmDistinct(a: nat, i: nat)
    requires a < i < 26
    ensures IBM3740[a] != IBM3740[i]
  {
  }

  lemma {:induction false} IbmFree(s: seq<nat>, start: nat, d: nat, j: nat)
    requires j !in s && d <= 1 && j == (start + d) % 26 && (d == 1 ==> start % 26 in s)
    ensures FirstFree(s, 26, start, j)
  {
    assert FreeAfter(s, 26, start, d, j);
  }

  lemma {:induction false} NotTaken(s: seq<nat>, n: nat, start: nat, j: nat)
    requires n > 0 && FirstFree(s, n, start, j) && start % n !in s
    ensures j == start % n
  {
    var d: nat :| FreeAfter(s, n, start, d, j);
    assert Onward(start, 0, n) == start % n;
  }

  lemma {:induction false} NextMultiple(i: nat, skew: nat, n: nat)
    requires n > 0
    ensures (Multiple(i, skew, n) + skew) % n == Multiple(i + 1, skew, n)
  {
    var x := i * skew;
    assert (i + 1) * skew == x + skew;
    ModPlus(x, skew, n);
  }

  lemma {:induction false} ModPlus(x: nat, y: nat, n: nat)
    requires n > 0
    ensures (x % n + y) % n == (x + y) % n
  {
    var q, r := (x % n + y) / n, (x % n + y) % n;
    assert x == x / n * n + x % n;
    assert x + y == (x / n + q) * n + r;
    DivUnique(x + y, n, x / n + q, r);
  }

  /** Searching may begin at the remainder. */
  lemma {:induction false} FirstFreeMod(s: seq<nat>, n: nat, start: nat, j: nat)
    requires n > 0 && FirstFree(s, n, start % n, j)
    ensures FirstFree(s, n, start, j)
  {
    var m := start % n;
    var d: nat :| FreeAfter(s, n, m, d, j);
    ModPlus(start, d, n);
    forall e | 0 <= e < d ensures Onward(start, e, n) in s {
      ModPlus(start, e, n);
      assert Onward(m, e, n) in s;
    }
    assert FreeAfter(s, n, start, d, j);
  }

  lemma {:induction false} FirstIsZero(n: nat, j: nat)
    requires n > 0 && FirstFree([], n, 0, j)
    ensures j == 0
  {
    NotTaken([], n, 0, j);
    SmallMod(0, n);
  }

  /** One entry more, found from where the code looks. */
  lemma {:induction false} SkewedNext(tab: seq<nat>, n: nat, skew: nat, start: nat, j: nat)
    requires Skewed(tab, n, skew) && |tab| < n && FirstFree(tab, n, start, j)
    requires start == if tab == [] then 0 else (tab[|tab| - 1] + skew) % n
    ensures Skewed(tab + [j], n, skew)
  {
    hide FirstFree, Skewed;
    if tab == [] { FirstIsZero(n, j); } else { FirstFreeMod(tab, n, tab[|tab| - 1] + skew, j); }
    SkewedMore(tab, n, skew, j);
  }

  lemma {:induction false} NoneOnward(start: nat, n: nat)
    requires start < n
    ensures Onward(start, 0, n) == start
  {
    SmallMod(start, n);
  }

  lemma {:induction false} OneOnward(start: nat, d: nat, n: nat)
    requires n > 0
    ensures (Onward(start, d, n) + 1) % n == Onward(start, d + 1, n)
  {
    ModPlus(start + d, 1, n);
  }

  /** The next number from j on, wrapping round, that is not yet in the table. */
  method FreeFrom(tab: array<nat>, i: nat, start: nat) returns (j: nat)
    requires i < tab.Length && start < tab.Length
    ensures j < tab.Length && FirstFree(tab[..i], tab.Length, start, j)
  {
    hide FirstFree, Onward, Distance;
    var n := tab.Length;
    ghost var f := SomeFree(tab[..i], n);
    ghost var d: nat := 0;
    j := start;
    NoneOnward(start, n);
    while true
      invariant j < n && j == Onward(start, d, n) && Distance(f, j, n) + d <= Distance(f, start, n)
      invariant forall e :: 0 <= e < d ==> Onward(start, e, n) in tab[..i]
      decreases Distance(f, j, n)
    {
      var k := 0;
      while k < i && tab[k] != j
        invariant k <= i && forall m :: 0 <= m < k ==> tab[m] != j
      {
        k := k + 1;
      }
      if k >= i {
        DistanceBelow(f, start, n);
        FoundFree(tab[..i], n, start, d, j);
        return;
      }
      assert tab[..i][k] == j;
      Nearer(f, j, n);
      OneOnward(start, d, n);
      j := (j + 1) % n;
      d := d + 1;
    }
  }

  /** Fill the skew table; the search for a free sector always ends. */
  method GenerateSkew(tab: array<nat>, skew: nat)
    modifies tab
    ensures Permutation(tab[..], tab.Length) && Skewed(tab[..], tab.Length, skew)
  {
    hide FirstFree, Skewed;
    var i: nat, j: nat := 0, 0;
    EmptyTable(tab.Length, skew);
    while i < tab.Length
      invariant i <= tab.Length && (i < tab.Length ==> j < tab.Length)
      invariant (forall k :: 0 <= k < i ==> tab[k] < tab.Length) && Distinct(tab[..i])
      invariant Skewed(tab[..i], tab.Length, skew)
      invariant i < tab.Length ==> j == if i == 0 then 0 else (tab[i - 1] + skew) % tab.Length
    {
      ghost var before, start := tab[..i], j;
      j := FreeFrom(tab, i, j);
      FreeMeans(before, tab.Length, start, j);
      SkewedNext(before, tab.Length, skew, start, j);
      tab[i] := j;
      assert tab[..i + 1] == before + [j];
      i := i + 1;
      j := (j + skew) % tab.Length;
    }
    assert tab[..] == tab[..i];
  }

  // ------------------------------------------------------------ geometry

  type Sector = seq<byte>

  /** Sizes are in bytes and sectors; boot is the first sector after the system tracks. */
  datatype Geometry = Geometry(secLength: nat, tracks: nat, sectrk: nat, blksiz: nat, boot: nat, size: nat, skewtab: seq<nat>)

  /** Sectors in a block. */
  function PerBlock(g: Geometry): nat
    requires g.secLength > 0
  {
    g.blksiz / g.secLength
  }

  predicate GeometryOk(g: Geometry) {
    && g.secLength > 0 && g.sectrk > 0 && g.blksiz > 0 && g.blksiz % g.secLength == 0
    && g.size * PerBlock(g) + g.boot <= g.sectrk * g.tracks
  }

  /** The number of sector c of block b, counting along the tracks. */
  function Logical(g: Geometry, b: nat, c: nat): nat
    requires g.secLength > 0
  {
    b * PerBlock(g) + g.boot + c
  }

  /** The blocks of a disk lie on it, and do not overlap. */
  lemma {:induction false} BlocksOnDisk(g: Geometry, b: nat, c: nat)
    requires GeometryOk(g) && b < g.size && c < PerBlock(g)
    ensures Logical(g, b, c) < g.sectrk * g.tracks && Logical(g, b, c) / g.sectrk < g.tracks
  {
    Product(b + 1, g.size, PerBlock(g));
    Bounded(Logical(g, b, c), g.sectrk, g.tracks);
  }

  lemma {:induction false} Bounded(x: nat, n: nat, m: nat)
    requires n > 0 && x < n * m
    ensures x / n < m
  {
    if x / n >= m { Product(m, x / n, n); }
  }

  lemma {:induction false} BlocksDisjoint(g: Geometry, b: nat, c: nat, b': nat, c': nat)
    requires GeometryOk(g) && c < PerBlock(g) && c' < PerBlock(g) && Logical(g, b, c) == Logical(g, b', c')
    ensures b == b' && c == c'
  {
    var n := PerBlock(g);
    DivUnique(b * n + c, n, b, c);
    DivUnique(b' * n + c', n, b', c');
  }

  /** Where logical sector l is on the disk. */
  function Place(g: Geometry, l: nat): (nat, nat)
    requires GeometryOk(g) && |g.skewtab| == g.sectrk
  {
    (l / g.sectrk, g.skewtab[l % g.sectrk])
  }

  /** Different sectors are in different places. */
  lemma {:induction false} PlacesDiffer(g: Geometry, l: nat, l': nat)
    requires GeometryOk(g) && Permutation(g.skewtab, g.sectrk) && Place(g, l) == Place(g, l')
    ensures l == l'
  {
    assert l % g.sectrk == l' % g.sectrk;
  }

  /** The sector after a sector is the next one on the track, or the first one on the next track. */
  lemma {:induction false} NextPlace(l: nat, n: nat)
    requires n > 0
    ensures if l % n + 1 >= n then (l + 1) / n == l / n + 1 && (l + 1) % n == 0
            else (l + 1) / n == l / n && (l + 1) % n == l % n + 1
  {
    if l % n + 1 >= n {
      DivUnique(l + 1, n, l / n + 1, 0);
    } else {
      DivUnique(l + 1, n, l / n, l % n + 1);
    }
  }

  // ------------------------------------------------------------- the disk

  class Device {
    const g: Geometry
    const store: array2<Sector>

    ghost predicate Valid()
      reads store
    {
      && GeometryOk(g) && Permutation(g.skewtab, g.sectrk)
      && store.Length0 == g.tracks && store.Length1 == g.sectrk
      && forall t, s :: 0 <= t < g.tracks && 0 <= s < g.sectrk ==> |store[t, s]| == g.secLength
    }

    /** The contents of logical sector l. */
    ghost function At(l: nat): Sector
      requires Valid() && l < g.sectrk * g.tracks
      reads store
    {
      Bounded(l, g.sectrk, g.tracks);
      store[Place(g, l).0, Place(g, l).1]
    }

    /** The contents of sector c of block b. */
    ghost function BlockAt(b: nat, c: nat): Sector
      requires Valid() && b < g.size && c < PerBlock(g)
      reads store
    {
      BlocksOnDisk(g, b, c);
      At(Logical(g, b, c))
    }

    lemma {:induction false} SectorLength(b: nat, c: nat)
      requires Valid() && b < g.size && c < PerBlock(g)
      ensures |BlockAt(b, c)| == g.secLength
    {
      BlocksOnDisk(g, b, c);
    }

    /** The last sector meant by end: a negative end stands for the last one of the block. */
    function LastOf(end: int): int
      requires g.secLength > 0
    {
      if end < 0 then PerBlock(g) - 1 else end
    }

    /** Where the first sector of a block is. */
    method StartOf(blockno: nat) returns (sect: nat, track: nat)
      requires g.secLength > 0 && g.sectrk > 0
      ensures track == Logical(g, blockno, 0) / g.sectrk && sect == Logical(g, blockno, 0) % g.sectrk
    {
      var l := blockno * (g.blksiz / g.secLength) + g.boot;
      sect, track := l % g.sectrk, l / g.sectrk;
    }

    /** On to the next sector. */
    method Advance(s: nat, t: nat, ghost blockno: nat, ghost c: nat) returns (sect: nat, track: nat)
      requires g.secLength > 0 && g.sectrk > 0
      requires t == Logical(g, blockno, c) / g.sectrk && s == Logical(g, blockno, c) % g.sectrk
      ensures track == Logical(g, blockno, c + 1) / g.sectrk && sect == Logical(g, blockno, c + 1) % g.sectrk
    {
      NextPlace(Logical(g, blockno, c), g.sectrk);
      sect, track := s + 1, t;
      if sect >= g.sectrk {
        sect := 0;
        track := track + 1;
      }
    }

    /** A block of zeros. */
    method ClearBuffer(buffer: array<Sector>)
      modifies buffer
      ensures forall c :: 0 <= c < buffer.Length ==> buffer[c] == Repeat<byte>(0, g.secLength)
    {
      var c := 0;
      while c < buffer.Length
        invariant c <= buffer.Length && forall i :: 0 <= i < c ==> buffer[i] == Repeat<byte>(0, g.secLength)
      {
        buffer[c] := Repeat<byte>(0, g.secLength);
        c := c + 1;
      }
    }

    /** Read sectors start to end of a block into the buffer. */
    method ReadBlock(blockno: nat, buffer: array<Sector>, start: nat, end: int) returns (ok: bool)
      requires Valid() && buffer.Length >= PerBlock(g) && end < PerBlock(g)
      modifies buffer
      ensures ok == (blockno < g.size)
      ensures forall c :: 0 <= c < buffer.Length ==>
                buffer[c] == if ok && start <= c <= LastOf(end) then BlockAt(blockno, c) else old(buffer[c])
    {
      if blockno >= g.size { return false; }
      var last := if end < 0 then g.blksiz / g.secLength - 1 else end;
      var sect, track := StartOf(blockno);
      var counter: nat := 0;
      assert last == LastOf(end);
      hide Logical, PerBlock, GeometryOk, Permutation;
      while counter <= last
        invariant counter <= last + 1
        invariant track == Logical(g, blockno, counter) / g.sectrk && sect == Logical(g, blockno, counter) % g.sectrk
        invariant forall c :: 0 <= c < buffer.Length ==>
                    buffer[c] == if start <= c < counter then BlockAt(blockno, c) else old(buffer[c])
        decreases last + 1 - counter
      {
        if counter >= start { buffer[counter] := GetSector(blockno, counter, track, sect); }
        sect, track := Advance(sect, track, blockno, counter);
        counter := counter + 1;
      }
      ok := true;
    }

    /** Read one sector. */
    method GetSector(blockno: nat, counter: nat, track: nat, sect: nat) returns (data: Sector)
      requires Valid() && blockno < g.size && counter < PerBlock(g)
      requires track == Logical(g, blockno, counter) / g.sectrk && sect == Logical(g, blockno, counter) % g.sectrk
      ensures data == BlockAt(blockno, counter)
    {
      BlocksOnDisk(g, blockno, counter);
      data := store[track, g.skewtab[sect]];
    }

    /** Write sectors start to end of a block from the buffer. */
    method WriteBlock(blockno: nat, buffer: seq<Sector>, start: nat, end: int)
      requires Valid() && |buffer| >= PerBlock(g) && end < PerBlock(g) && blockno < g.size
      requires forall c :: 0 <= c < |buffer| ==> |buffer[c]| == g.secLength
      modifies store
      ensures Valid()
      ensures forall b, c :: 0 <= b < g.size && 0 <= c < PerBlock(g) ==>
                BlockAt(b, c) == if b == blockno && start <= c <= LastOf(end) then buffer[c] else old(BlockAt(b, c))
    {
      var last := if end < 0 then g.blksiz / g.secLength - 1 else end;
      var sect, track := StartOf(blockno);
      var counter: nat := 0;
      assert last == LastOf(end);
      hide Logical, PerBlock, GeometryOk, Permutation, Valid, BlockAt;
      while counter <= last
        invariant counter <= last + 1 && Valid()
        invariant track == Logical(g, blockno, counter) / g.sectrk && sect == Logical(g, blockno, counter) % g.sectrk
        invariant forall b, c :: 0 <= b < g.size && 0 <= c < PerBlock(g) ==>
                    BlockAt(b, c) == if b == blockno && start <= c < counter then buffer[c] else old(BlockAt(b, c))
        decreases last + 1 - counter
      {
        if counter >= start { PutSector(blockno, counter, track, sect, buffer[counter]); }
        sect, track := Advance(sect, track, blockno, counter);
        counter := counter + 1;
      }
    }

    /** Write one sector: no other sector of any block changes. */
    method PutSector(blockno: nat, counter: nat, track: nat, sect: nat, data: Sector)
      requires Valid() && blockno < g.size && counter < PerBlock(g) && |data| == g.secLength
      requires track == Logical(g, blockno, counter) / g.sectrk && sect == Logical(g, blockno, counter) % g.sectrk
      modifies store
      ensures Valid()
      ensures forall b, c :: 0 <= b < g.size && 0 <= c < PerBlock(g) ==>
                BlockAt(b, c) == if b == blockno && c == counter then data else old(BlockAt(b, c))
    {
      BlocksOnDisk(g, blockno, counter);
      store[track, g.skewtab[sect]] := data;
      forall b: nat, c: nat | b < g.size && c < PerBlock(g)
        ensures BlockAt(b, c) == if b == blockno && c == counter then data else old(BlockAt(b, c))
      {
        BlocksOnDisk(g, b, c);
        if Place(g, Logical(g, b, c)) == Place(g, Logical(g, blockno, counter)) {
          PlacesDiffer(g, Logical(g, b, c), Logical(g, blockno, counter));
          BlocksDisjoint(g, b, c, blockno, counter);
        }
      }
    }
  }
}
