/**
 * System helpers: the "last updated" hint, today's date text, the filter
 * that drops system applications, and the bit packing of the device UUID.
 * The clock, the calendar, the package manager and the string hash codes
 * are outside the library: their values are parameters here.
 */
module SystemUtils {
  import opened JavaLang
  import opened LibConst
  import StringUtils

  // ---------------------------------------------------------------------
  // getLastUpdateTimeHintStr
  // ---------------------------------------------------------------------

  const JUST_NOW: string := "刚刚"
  const MINUTES_AGO: string := "分钟前"
  const HOURS_AGO: string := "小时前"
  const LONG_AGO: string := "很久很久以前"

  /** The hint for an interval in seconds; one minute or less (negatives too) is "just now". */
  function LastUpdateTimeHint(interval: int): (r: string)
    ensures r == JUST_NOW <==> interval <= TIMESTAMP_MINUTE
    ensures r == LONG_AGO <==> interval >= TIMESTAMP_DAY
  {
    if interval <= TIMESTAMP_MINUTE then JUST_NOW
    else if interval < TIMESTAMP_HOUR then
      var r := Decimal(interval / TIMESTAMP_MINUTE) + MINUTES_AGO;
      assert r[|r| - 2] == MINUTES_AGO[1];
      r
    else if interval < TIMESTAMP_DAY then
      var r := Decimal(interval / TIMESTAMP_HOUR) + HOURS_AGO;
      assert r[|r| - 2] == HOURS_AGO[1];
      r
    else LONG_AGO
  }

  /**
   * The four hints partition all intervals. A minute count is 1..59 and an
   * hour count 1..23, each the whole number of units in the interval.
   */
  lemma LastUpdateTimeHintCases(interval: int)
    ensures interval <= 60 ==> LastUpdateTimeHint(interval) == JUST_NOW
    ensures 60 < interval < 3600 ==> exists m ::
      && 1 <= m <= 59 && m * 60 <= interval < m * 60 + 60
      && LastUpdateTimeHint(interval) == Decimal(m) + MINUTES_AGO
    ensures 3600 <= interval < 86400 ==> exists h ::
      && 1 <= h <= 23 && h * 3600 <= interval < h * 3600 + 3600
      && LastUpdateTimeHint(interval) == Decimal(h) + HOURS_AGO
    ensures interval >= 86400 ==> LastUpdateTimeHint(interval) == LONG_AGO
  {
    TimeSpansComposed();
    if 60 < interval < 3600 {
      var m := interval / 60;
      assert m * 60 <= interval < m * 60 + 60;
      assert LastUpdateTimeHint(interval) == Decimal(m) + MINUTES_AGO;
      assert 1 <= m <= 59;
    }
    if 3600 <= interval < 86400 {
      var h := interval / 3600;
      assert h * 3600 <= interval < h * 3600 + 3600;
      assert LastUpdateTimeHint(interval) == Decimal(h) + HOURS_AGO;
      assert 1 <= h <= 23;
    }
  }

  /** Different hints name different buckets: a count is printed only for minutes and hours, and read back it gives the count. */
  lemma LastUpdateTimeHintReadsBack(interval: int)
    requires 60 < interval < 86400
    ensures var r := LastUpdateTimeHint(interval);
      var unit := if interval < 3600 then 60 else 3600;
      && |r| > 3
      && r[|r| - 3..] == (if interval < 3600 then MINUTES_AGO else HOURS_AGO)
      && ParseDecimal(r[..|r| - 3]) == Some(interval / unit)
  {
    TimeSpansComposed();
    var r := LastUpdateTimeHint(interval);
    var unit := if interval < 3600 then 60 else 3600;
    DecimalShape(interval / unit);
    DecimalRoundTrip(interval / unit);
    assert r[..|r| - 3] == Decimal(interval / unit);
  }

  // ---------------------------------------------------------------------
  // getDateOfToday
  // ---------------------------------------------------------------------

  /** A month or day field: a '0' goes in front whenever the value is below 10, zero and negatives included. */
  function Pad2(v: int): string
  {
    (if v < 10 then "0" else "") + Decimal(v)
  }

  /**
   * The date text for a calendar reading: the calendar counts months from 0,
   * so one is added. "MM-dd" and "yyyy-MM-dd" are understood; any other
   * format gives "".
   */
  method GetDateOfToday(format: string, year: int, calendarMonth: int, day: int) returns (r: string)
    ensures format == "MM-dd" ==> r == Pad2(calendarMonth + 1) + "-" + Pad2(day)
    ensures format == "yyyy-MM-dd" ==> r == Decimal(year) + "-" + Pad2(calendarMonth + 1) + "-" + Pad2(day)
    ensures format != "MM-dd" && format != "yyyy-MM-dd" ==> r == ""
  {
    var month := calendarMonth + 1;
    var monthStr := if month < 10 then "0" else "";
    monthStr := monthStr + Decimal(month);
    var dayStr := if day < 10 then "0" else "";
    dayStr := dayStr + Decimal(day);
    if format == "MM-dd" {
      return monthStr + "-" + dayStr;
    } else if format == "yyyy-MM-dd" {
      return Decimal(year) + "-" + monthStr + "-" + dayStr;
    }
    return "";
  }

  /** Fields from 0 to 99 are exactly two digits that read back as the value; negatives get a '0' before the minus sign. */
  lemma Pad2Shape(v: int)
    ensures 0 <= v < 100 ==> |Pad2(v)| == 2 && AllDigits(Pad2(v)) && DigitsValue(Pad2(v)) == v
    ensures v < 0 ==> Pad2(v)[..2] == "0-"
  {
    DecimalShape(v);
    if 0 <= v < 10 {
      NatDigitsShape(v);
      assert Pad2(v) == ['0', DigitChar(v)];
      assert Pad2(v)[..1] == ['0'];
    } else if 10 <= v < 100 {
      NatDigitsShape(v);
      NatDigitsShape(v / 10);
    }
  }

  /**
   * For a real date the "yyyy-MM-dd" text agrees with StringUtils' date text.
   * The two padding rules differ only at zero and below: here a zero field
   * prints as "00", there as "0".
   */
  lemma TodayAgreesWithDataStr(year: int, calendarMonth: int, day: int)
    requires 0 <= calendarMonth && 1 <= day
    ensures Decimal(year) + "-" + Pad2(calendarMonth + 1) + "-" + Pad2(day)
      == StringUtils.DataStr(year, calendarMonth + 1, day)
    ensures Pad2(0) == "00" && StringUtils.Field(0) == "0"
  {
    assert Pad2(calendarMonth + 1) == StringUtils.Field(calendarMonth + 1);
    assert Pad2(day) == StringUtils.Field(day);
    assert NatDigits(0) == "0";
  }

  // ---------------------------------------------------------------------
  // getAppInfoList / getInstalledPackageList
  // ---------------------------------------------------------------------

  const FLAG_SYSTEM: bv32 := 1

  /** An installed package, reduced to what the filters read and copy. */
  datatype PackageInfo = PackageInfo(packageName: string, versionName: string, versionCode: int, flags: bv32)

  /** The application record built from a package; label and icon are left out. */
  datatype AppInfo = AppInfo(packageName: string, versionName: string, versionCode: int)

  predicate IsSystem(p: PackageInfo) { p.flags & FLAG_SYSTEM != 0 }

  function ToAppInfo(p: PackageInfo): AppInfo
  {
    AppInfo(p.packageName, p.versionName, p.versionCode)
  }

  /** The packages a listing keeps, in input order. */
  function Kept(packs: seq<PackageInfo>, includeSystemApps: bool): (r: seq<PackageInfo>)
    ensures |r| <= |packs|
  {
    if packs == [] then []
    else (if includeSystemApps || !IsSystem(packs[0]) then [packs[0]] else []) + Kept(packs[1..], includeSystemApps)
  }

  /** A listing keeps exactly the input packages that pass its filter. */
  lemma {:induction false} KeptMembers(packs: seq<PackageInfo>, includeSystemApps: bool)
    ensures forall p :: p in Kept(packs, includeSystemApps) <==> p in packs && (includeSystemApps || !IsSystem(p))
    decreases |packs|
  {
    if packs != [] {
      KeptMembers(packs[1..], includeSystemApps);
      assert forall p :: p in packs <==> p == packs[0] || p in packs[1..];
    }
  }

  function AppInfos(packs: seq<PackageInfo>): seq<AppInfo>
  {
    if packs == [] then [] else [ToAppInfo(packs[0])] + AppInfos(packs[1..])
  }

  function Names(packs: seq<PackageInfo>): seq<string>
  {
    if packs == [] then [] else [packs[0].packageName] + Names(packs[1..])
  }

  lemma KeptCons(x: PackageInfo, rest: seq<PackageInfo>, withSystem: bool)
    ensures Kept([x] + rest, withSystem) == (if withSystem || !IsSystem(x) then [x] else []) + Kept(rest, withSystem)
  {
    assert ([x] + rest)[1..] == rest;
  }

  lemma {:induction false} KeptAppend(packs: seq<PackageInfo>, p: PackageInfo, withSystem: bool)
    ensures Kept(packs + [p], withSystem) == Kept(packs, withSystem) + (if withSystem || !IsSystem(p) then [p] else [])
    decreases |packs|
  {
    if packs == [] {
      KeptCons(p, [], withSystem);
      assert packs + [p] == [p] + [];
    } else {
      var x, rest := packs[0], packs[1..];
      assert packs == [x] + rest;
      assert packs + [p] == [x] + (rest + [p]);
      KeptCons(x, rest, withSystem);
      KeptCons(x, rest + [p], withSystem);
      KeptAppend(rest, p, withSystem);
    }
  }

  lemma {:induction false} AppInfosAppend(a: seq<PackageInfo>, b: seq<PackageInfo>)
    ensures AppInfos(a + b) == AppInfos(a) + AppInfos(b)
    decreases |a|
  {
    if a == [] {
      assert a + b == b;
    } else {
      assert (a + b)[0] == a[0];
      assert (a + b)[1..] == a[1..] + b;
      AppInfosAppend(a[1..], b);
    }
  }

  lemma {:induction false} NamesAppend(a: seq<PackageInfo>, b: seq<PackageInfo>)
    ensures Names(a + b) == Names(a) + Names(b)
    decreases |a|
  {
    if a == [] {
      assert a + b == b;
    } else {
      assert (a + b)[0] == a[0];
      assert (a + b)[1..] == a[1..] + b;
      NamesAppend(a[1..], b);
    }
  }

  /** One more package extends the app list by its record exactly when the listing keeps it. */
  lemma AppInfosStep(packs: seq<PackageInfo>, i: nat, withSystem: bool)
    requires i < |packs|
    ensures AppInfos(Kept(packs[..i + 1], withSystem)) ==
      AppInfos(Kept(packs[..i], withSystem)) + (if withSystem || !IsSystem(packs[i]) then [ToAppInfo(packs[i])] else [])
  {
    var p := packs[i];
    var added := if withSystem || !IsSystem(p) then [p] else [];
    assert packs[..i + 1] == packs[..i] + [p];
    KeptAppend(packs[..i], p, withSystem);
    AppInfosAppend(Kept(packs[..i], withSystem), added);
    assert AppInfos(added) == if added == [] then [] else [ToAppInfo(p)];
  }

  /** One more package extends the name list by its name exactly when it is not a system app. */
  lemma NamesStep(packs: seq<PackageInfo>, i: nat)
    requires i < |packs|
    ensures Names(Kept(packs[..i + 1], false)) ==
      Names(Kept(packs[..i], false)) + (if !IsSystem(packs[i]) then [packs[i].packageName] else [])
  {
    var p := packs[i];
    var added := if !IsSystem(p) then [p] else [];
    assert packs[..i + 1] == packs[..i] + [p];
    KeptAppend(packs[..i], p, false);
    NamesAppend(Kept(packs[..i], false), added);
    assert Names(added) == if added == [] then [] else [p.packageName];
  }

  /** Every installed package becomes an AppInfo; without system apps, only those whose FLAG_SYSTEM bit is clear. */
  method GetAppInfoList(packages: seq<PackageInfo>, includeSystemApps: bool) returns (appList: seq<AppInfo>)
    ensures appList == AppInfos(Kept(packages, includeSystemApps))
  {
    appList := [];
    for i := 0 to |packages|
      invariant appList == AppInfos(Kept(packages[..i], includeSystemApps))
    {
      var packageInfo := packages[i];
      var appInfo := ToAppInfo(packageInfo);
      AppInfosStep(packages, i, includeSystemApps);
      if includeSystemApps {
        appList := appList + [appInfo];
      } else {
        if packageInfo.flags & FLAG_SYSTEM == 0 {
          appList := appList + [appInfo];
        }
      }
    }
    assert packages[..|packages|] == packages;
  }

  /** The names of the installed packages whose FLAG_SYSTEM bit is clear, in order. */
  method GetInstalledPackageList(packs: seq<PackageInfo>) returns (packList: seq<string>)
    ensures packList == Names(Kept(packs, false))
  {
    packList := [];
    for i := 0 to |packs|
      invariant packList == Names(Kept(packs[..i], false))
    {
      var packInfo := packs[i];
      NamesStep(packs, i);
      if packInfo.flags & FLAG_SYSTEM == 0 {
        packList := packList + [packInfo.packageName];
      }
    }
    assert packs[..|packs|] == packs;
  }

  /**
   * Including system apps keeps every package; excluding them keeps exactly
   * the user packages, and filtering again changes nothing.
   */
  lemma {:induction false} KeptSpec(packs: seq<PackageInfo>)
    ensures Kept(packs, true) == packs
    ensures forall p :: p in Kept(packs, false) ==> !IsSystem(p)
    ensures Kept(Kept(packs, false), false) == Kept(packs, false)
    ensures (forall i :: 0 <= i < |packs| ==> !IsSystem(packs[i])) ==> Kept(packs, false) == packs
    decreases |packs|
  {
    if packs != [] {
      KeptSpec(packs[1..]);
      assert [packs[0]] + packs[1..] == packs;
      if IsSystem(packs[0]) {
        assert Kept(packs, false) == Kept(packs[1..], false);
      } else {
        var k := Kept(packs, false);
        assert k == [packs[0]] + Kept(packs[1..], false);
        assert k != [] && k[0] == packs[0];
        assert k[1..] == Kept(packs[1..], false);
        assert Kept(k, false) == [packs[0]] + Kept(k[1..], false);
      }
      if forall i :: 0 <= i < |packs| ==> !IsSystem(packs[i]) {
        assert forall i :: 0 <= i < |packs[1..]| ==> !IsSystem(packs[1..][i]) by {
          forall i | 0 <= i < |packs[1..]| ensures !IsSystem(packs[1..][i]) { assert packs[1..][i] == packs[i + 1]; }
        }
      }
    }
  }

  /** The package-name list is the package names of the app list without system apps. */
  lemma {:induction false} PackageListMatchesAppList(packs: seq<PackageInfo>)
    ensures Names(Kept(packs, false)) == AppNames(AppInfos(Kept(packs, false)))
    decreases |packs|
  {
    AppNamesOfPackages(Kept(packs, false));
  }

  function AppNames(apps: seq<AppInfo>): seq<string>
  {
    if apps == [] then [] else [apps[0].packageName] + AppNames(apps[1..])
  }

  lemma {:induction false} AppNamesOfPackages(packs: seq<PackageInfo>)
    ensures Names(packs) == AppNames(AppInfos(packs))
    decreases |packs|
  {
    if packs != [] {
      AppNamesOfPackages(packs[1..]);
    }
  }

  // ---------------------------------------------------------------------
  // getUniqueUuid
  // ---------------------------------------------------------------------

  /*
   * A Java int hash code is given by its 32 bits, held in the low half of a
   * bv64 (the upper half is ignored); widening it to long copies the sign bit
   * into the upper half.
   */
  const LOW_WORD: bv64 := 0xFFFF_FFFF
  const HIGH_WORD: bv64 := 0xFFFF_FFFF_0000_0000
  const SIGN_BIT: bv64 := 0x8000_0000

  /** `(long) x` for an int x. */
  function SignExtend(x: bv64): bv64
  {
    if x & SIGN_BIT != 0 then (x & LOW_WORD) | HIGH_WORD else x & LOW_WORD
  }

  /** The UUID's two 64-bit halves, from the hash codes of the Android id, the device id and the SIM serial. */
  datatype UuidBits = UuidBits(mostSig: bv64, leastSig: bv64)

  /** As written: `((long) deviceHash << 32) | serialHash`, the serial hash widened with its sign. */
  function UniqueUuidBits(androidHash: bv64, deviceHash: bv64, serialHash: bv64): UuidBits
  {
    UuidBits(SignExtend(androidHash), (SignExtend(deviceHash) << 32) | SignExtend(serialHash))
  }

  lemma SignExtendLow(x: bv64)
    ensures SignExtend(x) & LOW_WORD == x & LOW_WORD
    ensures x & SIGN_BIT != 0 ==> SignExtend(x) >> 32 == LOW_WORD
    ensures x & SIGN_BIT == 0 ==> SignExtend(x) >> 32 == 0
  {
    var r := SignExtend(x);
    if x & SIGN_BIT != 0 {
      assert r == (x & LOW_WORD) | HIGH_WORD;
    } else {
      assert r == x & LOW_WORD;
    }
  }

  lemma MaskLow(x: bv64)
    ensures (x & 0xFFFF_FFFF) >> 32 == 0 && (x & 0xFFFF_FFFF) & 0xFFFF_FFFF == x & 0xFFFF_FFFF
  {
  }

  /** Shifting a word into the upper half and or-ing another in: what each half then holds. */
  lemma PackHalves(a: bv64, b: bv64)
    ensures ((a << 32) | b) & 0xFFFF_FFFF == b & 0xFFFF_FFFF
    ensures ((a << 32) | b) >> 32 == (a & 0xFFFF_FFFF) | (b >> 32)
  {
  }

  /**
   * The serial hash survives in the lower 32 bits of the low half. A negative
   * serial hash also sets all 32 upper bits, so the device hash is lost; a
   * non-negative one leaves the device hash there. The high half is the
   * Android id hash, sign-extended.
   */
  lemma UuidPacking(androidHash: bv64, deviceHash: bv64, serialHash: bv64)
    ensures var u := UniqueUuidBits(androidHash, deviceHash, serialHash);
      && u.leastSig & LOW_WORD == serialHash & LOW_WORD
      && (serialHash & SIGN_BIT != 0 ==> u.leastSig >> 32 == LOW_WORD)
      && (serialHash & SIGN_BIT == 0 ==> u.leastSig >> 32 == deviceHash & LOW_WORD)
      && u.mostSig & LOW_WORD == androidHash & LOW_WORD
  {
    var a, b := SignExtend(deviceHash), SignExtend(serialHash);
    SignExtendLow(androidHash);
    SignExtendLow(deviceHash);
    SignExtendLow(serialHash);
    PackHalves(a, b);
    if serialHash & SIGN_BIT != 0 {
      assert (a & LOW_WORD) | LOW_WORD == LOW_WORD;
    } else {
      assert (a & LOW_WORD) | 0 == a & LOW_WORD;
    }
  }

  /** Two devices with different device ids get the same UUID whenever the serial hash is negative. */
  lemma UuidCollision()
    ensures UniqueUuidBits(7, 0, 0x8000_0000) == UniqueUuidBits(7, 1, 0x8000_0000)
  {
    SignExtendLow(0);
    SignExtendLow(1);
    SignExtendLow(0x8000_0000);
    assert SignExtend(0x8000_0000) == 0xFFFF_FFFF_8000_0000;
    assert SignExtend(0) == 0 && SignExtend(1) == 1;
  }

  /** The packing evidently intended: the serial hash masked to its 32 bits, `serialHash & 0xFFFFFFFFL`. */
  function UniqueUuidBitsMasked(androidHash: bv64, deviceHash: bv64, serialHash: bv64): UuidBits
  {
    UuidBits(SignExtend(androidHash), (SignExtend(deviceHash) << 32) | (serialHash & LOW_WORD))
  }

  /** With the mask, the low half holds both hashes, so different ids give different UUIDs. */
  lemma MaskedUuidKeepsBoth(androidHash: bv64, deviceHash: bv64, serialHash: bv64)
    ensures var u := UniqueUuidBitsMasked(androidHash, deviceHash, serialHash);
      u.leastSig >> 32 == deviceHash & LOW_WORD && u.leastSig & LOW_WORD == serialHash & LOW_WORD
  {
    var a, b := SignExtend(deviceHash), serialHash & LOW_WORD;
    SignExtendLow(deviceHash);
    PackHalves(a, b);
    MaskLow(serialHash);
    assert (a & LOW_WORD) | 0 == a & LOW_WORD;
  }
}
