/**
 * The player's gold, kept in `Resources.txt` as `{ "Gold": <int> }` and
 * cached in memory after the first read.  Amounts are 32-bit integers and
 * `AddGold` adds them without an overflow check, so the sum wraps.
 */
module Resources {
  import opened Wrappers
  import opened Text

  /** `Resources.txt`: absent, unreadable or not an object, or an object
      whose "Gold" member has the given text (`None` when absent or null). */
  datatype ResourcesFile = NoFile | Unreadable | Stored(gold: Option<string>)

  const StartingGold: int32 := 1000

  /** The gold a file holds: its "Gold" value when it parses as an Int32,
      otherwise the starting gold. */
  function GoldIn(f: ResourcesFile): (g: int32)
    ensures !f.Stored? || f.gold.None? ==> g == StartingGold
    ensures g < 0 ==> f.Stored? && f.gold.Some? && |Trim(f.gold.value)| > 0 && Trim(f.gold.value)[0] == '-'
  {
    if f.Stored? && f.gold.Some? then ParseInt32(f.gold.value).GetOr(StartingGold) else StartingGold
  }

  /** The file `SetGold(amount)` writes. */
  function GoldFile(amount: int32): (f: ResourcesFile)
    ensures f.Stored? && f.gold.Some? && |f.gold.value| > 0
    ensures f.gold.value[0] == '-' <==> amount < 0
  {
    Stored(Some(IntToString(amount)))
  }

  /** Reading back a written amount gives that amount. */
  lemma GoldRoundTrip(amount: int32)
    ensures GoldIn(GoldFile(amount)) == amount
  {
    ParseFormatRoundTrip(amount);
  }

  /** The new balance `AddGold` stores, or `None` when it refuses because
      the wrapped sum is negative. */
  function AddResult(current: int32, amount: int32): (r: Option<int32>)
    ensures r.Some? ==> r.value >= 0 && (r.value - (current + amount)) % 0x1_0000_0000 == 0
    ensures r.None? <==> Wrap32(current + amount) < 0
  {
    var n := Wrap32(current + amount);
    if n < 0 then None else Some(n)
  }

  /** From a non-negative balance, an accepted addition is exact: every sum
      that wraps comes out negative and is refused. */
  lemma AddFromNonNegative(current: int32, amount: int32)
    requires current >= 0
    ensures AddResult(current, amount).Some? <==> 0 <= current + amount < 0x8000_0000
    ensures AddResult(current, amount).Some? ==> AddResult(current, amount).value == current + amount
  {
    var x := current + amount;
    if x >= 0x8000_0000 {
      assert Wrap32(x) == x - 0x1_0000_0000;
    }
  }

  /** From a negative balance the sum can wrap to a large positive one:
      taking 1 from the least Int32 gives the greatest. */
  lemma AddFromNegativeWraps()
    ensures AddResult(-0x8000_0000, -1) == Some(0x7FFF_FFFF)
  {
    assert Wrap32(-0x8000_0000 - 1) == 0x7FFF_FFFF;
  }

  class ResourceManager {
    /** `Resources.txt` */
    var file: ResourcesFile
    /** `_goldCache` */
    var goldCache: Option<int32>

    /** The cache, once filled, holds what the file holds. */
    ghost predicate Valid()
      reads this
    {
      goldCache.Some? ==> goldCache.value == GoldIn(file)
    }

    constructor (file: ResourcesFile)
      ensures Valid() && this.file == file && goldCache == None
    {
      this.file := file;
      goldCache := None;
    }

    /** The current gold, read from the file on the first call. */
    method GetGold() returns (g: int32)
      requires Valid()
      modifies this
      ensures Valid() && file == old(file) && goldCache == Some(g)
      ensures g == GoldIn(file)
    {
      if goldCache.Some? {
        return goldCache.value;
      }
      if !file.Stored? {
        goldCache := Some(StartingGold);
        return StartingGold;
      }
      if file.gold.Some? {
        var parsed := ParseInt32(file.gold.value);
        if parsed.Some? {
          goldCache := parsed;
          return parsed.value;
        }
      }
      goldCache := Some(StartingGold);
      g := StartingGold;
    }

    /** Writes `amount` to the file and the cache; when the write fails,
        nothing changes. */
    method SetGold(amount: int32, writeSucceeds: bool)
      requires Valid()
      modifies this
      ensures Valid()
      ensures writeSucceeds ==> file == GoldFile(amount) && goldCache == Some(amount)
      ensures !writeSucceeds ==> file == old(file) && goldCache == old(goldCache)
    {
      if writeSucceeds {
        GoldRoundTrip(amount);
        file := GoldFile(amount);
        goldCache := Some(amount);
      }
    }

    /** Adds `amount` (negative to spend) unless the wrapped sum is
        negative; reports success even when the write then fails. */
    method AddGold(amount: int32, writeSucceeds: bool) returns (ok: bool)
      requires Valid()
      modifies this
      ensures Valid()
      ensures ok <==> AddResult(old(GoldIn(file)), amount).Some?
      ensures ok && writeSucceeds ==> file == GoldFile(AddResult(old(GoldIn(file)), amount).value)
      ensures !(ok && writeSucceeds) ==> file == old(file)
      ensures goldCache == Some(GoldIn(file))
    {
      var current := GetGold();
      var newAmount := Wrap32(current + amount);
      if newAmount < 0 {
        return false;
      }
      SetGold(newAmount, writeSucceeds);
      ok := true;
    }

    /** Whether the player has at least `amount` gold. */
    method HasGold(amount: int32) returns (b: bool)
      requires Valid()
      modifies this
      ensures Valid() && file == old(file) && goldCache == Some(GoldIn(file))
      ensures b <==> GoldIn(file) >= amount
    {
      var g := GetGold();
      b := g >= amount;
    }

    /** Back to the starting gold. */
    method Reset(writeSucceeds: bool)
      requires Valid()
      modifies this
      ensures Valid()
      ensures writeSucceeds ==> file == GoldFile(StartingGold) && GoldIn(file) == StartingGold
      ensures writeSucceeds ==> goldCache == Some(StartingGold)
      ensures !writeSucceeds ==> file == old(file) && goldCache == old(goldCache)
    {
      SetGold(StartingGold, writeSucceeds);
      if writeSucceeds {
        GoldRoundTrip(StartingGold);
      }
    }

    /** On game start: without a file, write the starting gold; with one,
        drop the cache and read the file again. */
    method Initialize(writeSucceeds: bool)
      requires Valid()
      modifies this
      ensures Valid()
      ensures old(file).NoFile? && writeSucceeds ==> file == GoldFile(StartingGold) && goldCache == Some(StartingGold)
      ensures old(file).NoFile? && !writeSucceeds ==> file == old(file) && goldCache == old(goldCache)
      ensures !old(file).NoFile? ==> file == old(file) && goldCache == Some(GoldIn(file))
    {
      if file.NoFile? {
        SetGold(StartingGold, writeSucceeds);
      } else {
        goldCache := None;
        var shown := GetGold();
      }
    }
  }
}
