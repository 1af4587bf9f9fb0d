/** Asking whether the main executable was built for at least some version: the fast path and the slow one. */
module VersionChecks {
  import opened MachineWords

  datatype Platform =
    | MacOS | IOS | WatchOS | TvOS | BridgeOS
    | MacCatalyst | IOSSimulator | WatchOSSimulator | TvOSSimulator
    | Other(number: uint32)

  /** A version of a platform, or of the set that stands for a version of each. */
  datatype BuildVersion = Concrete(platform: Platform, version: uint32) | VersionSet(version: uint32)

  datatype VersionSetEntry = VersionSetEntry(versionSet: uint32, macos: uint32, ios: uint32, watchos: uint32,
                                             tvos: uint32, bridgeos: uint32)

  /** What the executable records about itself. */
  datatype ImageVersion = ImageVersion(platform: Platform, version: uint32)

  datatype FastPathData = FastPathData(version: uint32, versionSetEquivalent: uint32, platform: Platform)

  function BasePlatform(p: Platform): Platform
  {
    match p
    case MacCatalyst => IOS
    case IOSSimulator => IOS
    case WatchOSSimulator => WatchOS
    case TvOSSimulator => TvOS
    case _ => p
  }

  predicate Known(p: Platform) { p.MacOS? || p.IOS? || p.WatchOS? || p.TvOS? || p.BridgeOS? }

  /** The platform's column of the table; a platform that is not known is newer than everything. */
  function VersionIn(e: VersionSetEntry, p: Platform): uint32
  {
    match p
    case MacOS => e.macos
    case IOS => e.ios
    case WatchOS => e.watchos
    case TvOS => e.tvos
    case BridgeOS => e.bridgeos
    case _ => 0xFFFF_FFFF
  }

  /** Sorted by set, and no platform's version goes down. */
  predicate Monotone(table: seq<VersionSetEntry>, p: Platform)
  {
    forall i, j :: 0 <= i < j < |table| ==>
      table[i].versionSet <= table[j].versionSet && VersionIn(table[i], p) <= VersionIn(table[j], p)
  }

  /** The first entry whose set is not below the version; the length when there is none. */
  function LowerBound(table: seq<VersionSetEntry>, version: uint32): (k: nat)
    ensures k <= |table| && (k < |table| ==> table[k].versionSet >= version)
    ensures forall i :: 0 <= i < k ==> table[i].versionSet < version
  {
    if table == [] || table[0].versionSet >= version then 0 else 1 + LowerBound(table[1..], version)
  }

  /** A set version in terms of the active platform; the table must cover it. */
  function MapFromVersionSet(table: seq<VersionSetEntry>, active: Platform, query: BuildVersion): BuildVersion
    requires query.VersionSet? ==> LowerBound(table, query.version) < |table|
  {
    match query
    case Concrete(_, _) => query
    case VersionSet(version) =>
      var base := BasePlatform(active);
      if Known(base) then Concrete(base, VersionIn(table[LowerBound(table, version)], base)) else Concrete(Other(0), 0)
  }

  /** The slow answer: some version the image records is of the platform asked for, and not older. */
  method AtLeast(table: seq<VersionSetEntry>, active: Platform, image: seq<ImageVersion>, query: BuildVersion)
    returns (r: bool)
    requires query.VersionSet? ==> LowerBound(table, query.version) < |table|
    ensures r <==> exists k :: 0 <= k < |image| && Meets(image[k], MapFromVersionSet(table, active, query))
    ensures query.Concrete? ==> (r <==> RecordsBase(image, query.platform, query.version))
    ensures query.VersionSet? ==>
              var e := table[LowerBound(table, query.version)];
              r <==> match active
                     case MacOS => RecordsBase(image, MacOS, e.macos)
                     case IOS => RecordsBase(image, IOS, e.ios)
                     case MacCatalyst => RecordsBase(image, IOS, e.ios)
                     case IOSSimulator => RecordsBase(image, IOS, e.ios)
                     case WatchOS => RecordsBase(image, WatchOS, e.watchos)
                     case WatchOSSimulator => RecordsBase(image, WatchOS, e.watchos)
                     case TvOS => RecordsBase(image, TvOS, e.tvos)
                     case TvOSSimulator => RecordsBase(image, TvOS, e.tvos)
                     case BridgeOS => RecordsBase(image, BridgeOS, e.bridgeos)
                     case Other(_) => RecordsBase(image, Other(0), 0)
  {
    var version := MapFromVersionSet(table, active, query);
    r := false;
    var i := 0;
    while i < |image|
      invariant 0 <= i <= |image|
      invariant r <==> exists k :: 0 <= k < i && Meets(image[k], version)
    {
      if BasePlatform(image[i].platform) == version.platform && image[i].version >= version.version {
        r := true;
      }
      i := i + 1;
    }
    MeetsRecorded(image, version.platform, version.version);
  }

  predicate Records(image: seq<ImageVersion>, platform: Platform, version: uint32)
  {
    exists k :: 0 <= k < |image| && image[k].platform == platform && image[k].version >= version
  }

  /** The image records such a version of the platform, its simulator or, for iOS, of Mac Catalyst; no version
      counts as one of a simulator or of Mac Catalyst itself. */
  predicate RecordsBase(image: seq<ImageVersion>, platform: Platform, version: uint32)
  {
    match platform
    case IOS => Records(image, IOS, version) || Records(image, IOSSimulator, version) || Records(image, MacCatalyst, version)
    case WatchOS => Records(image, WatchOS, version) || Records(image, WatchOSSimulator, version)
    case TvOS => Records(image, TvOS, version) || Records(image, TvOSSimulator, version)
    case MacCatalyst => false
    case IOSSimulator => false
    case WatchOSSimulator => false
    case TvOSSimulator => false
    case _ => Records(image, platform, version)
  }

  lemma MeetsRecorded(image: seq<ImageVersion>, platform: Platform, version: uint32)
    ensures (exists k :: 0 <= k < |image| && Meets(image[k], Concrete(platform, version))) <==>
            RecordsBase(image, platform, version)
  {
    var wanted := Concrete(platform, version);
    forall p: Platform | BasePlatform(p) == platform && Records(image, p, version)
      ensures exists k :: 0 <= k < |image| && Meets(image[k], wanted)
    {
      var k :| 0 <= k < |image| && image[k].platform == p && image[k].version >= version;
      assert Meets(image[k], wanted);
    }
    if k :| 0 <= k < |image| && Meets(image[k], wanted) {
      assert Records(image, image[k].platform, version);
    }
  }

  predicate Meets(v: ImageVersion, wanted: BuildVersion)
    requires wanted.Concrete?
  {
    BasePlatform(v.platform) == wanted.platform && v.version >= wanted.version
  }

  /** The entries at the front of the table whose version is not above. */
  function Covered(table: seq<VersionSetEntry>, p: Platform, version: uint32): (k: nat)
    ensures k <= |table| && (k < |table| ==> VersionIn(table[k], p) > version)
    ensures forall i :: 0 <= i < k ==> VersionIn(table[i], p) <= version
  {
    if table == [] || VersionIn(table[0], p) > version then 0 else 1 + Covered(table[1..], p, version)
  }

  /** The set of the last entry that is not above the version; zero if the first one already is. */
  method FindVersionSetEquivalent(table: seq<VersionSetEntry>, active: Platform, version: uint32) returns (r: uint32)
    ensures var k := Covered(table, BasePlatform(active), version);
            r == if k == 0 then 0 else table[k - 1].versionSet
    ensures exists k: nat :: CoversTo(table, active, version, k) && r == if k == 0 then 0 else table[k - 1].versionSet
  {
    r := 0;
    var i := 0;
    while i < |table|
      invariant 0 <= i <= Covered(table, BasePlatform(active), version)
      invariant r == if i == 0 then 0 else table[i - 1].versionSet
    {
      if VersionIn(table[i], BasePlatform(active)) > version { break; }
      r := table[i].versionSet;
      i := i + 1;
    }
    assert CoversTo(table, active, version, i);
  }

  /** The first `k` entries are not newer, and the next one is. */
  predicate CoversTo(table: seq<VersionSetEntry>, active: Platform, version: uint32, k: nat)
  {
    && k <= |table| && (k < |table| ==> Newer(table[k], active, version))
    && forall i :: 0 <= i < k ==> !Newer(table[i], active, version)
  }

  /** The entry is newer than the version on the platform whose versions the active one shares. */
  predicate Newer(e: VersionSetEntry, active: Platform, version: uint32)
  {
    match active
    case MacOS => e.macos > version
    case IOS => e.ios > version
    case MacCatalyst => e.ios > version
    case IOSSimulator => e.ios > version
    case WatchOS => e.watchos > version
    case WatchOSSimulator => e.watchos > version
    case TvOS => e.tvos > version
    case TvOSSimulator => e.tvos > version
    case BridgeOS => e.bridgeos > version
    case Other(_) => 0xFFFF_FFFF > version
  }

  /** Stashes what the fast path compares with; the last version recorded wins. */
  method SetupFastPath(table: seq<VersionSetEntry>, active: Platform, image: seq<ImageVersion>)
    returns (data: FastPathData)
    ensures image == [] ==> data == FastPathData(0, 0, Other(0))
    ensures image != [] ==> IsFastPathData(table, active, image[|image| - 1].version, data)
  {
    hide Covered, VersionIn, BasePlatform, CoversTo;
    data := FastPathData(0, 0, Other(0));
    var i := 0;
    while i < |image|
      invariant 0 <= i <= |image|
      invariant i == 0 ==> data == FastPathData(0, 0, Other(0))
      invariant i > 0 ==> IsFastPathData(table, active, image[i - 1].version, data)
    {
      var equivalent := FindVersionSetEquivalent(table, active, image[i].version);
      data := FastPathData(image[i].version, equivalent, BasePlatform(active));
      i := i + 1;
    }
  }

  predicate IsFastPathData(table: seq<VersionSetEntry>, active: Platform, version: uint32, data: FastPathData)
  {
    var k := Covered(table, BasePlatform(active), version);
    data == FastPathData(version, if k == 0 then 0 else table[k - 1].versionSet, BasePlatform(active))
  }

  /** The fast answer: one comparison, with the version, its set, or zero. */
  predicate AtLeastFast(data: FastPathData, query: BuildVersion)
  {
    var currentVersion :=
      if query.VersionSet? then data.versionSetEquivalent
      else if query.platform == data.platform then data.version
      else 0;
    currentVersion >= query.version
  }

  /** Comparing sets is comparing versions: the covered entries reach the query exactly when its entry is covered. */
  lemma SetEquivalent(table: seq<VersionSetEntry>, p: Platform, version: uint32, query: uint32)
    requires Monotone(table, p) && LowerBound(table, query) < |table|
    ensures var k := Covered(table, p, version);
            version >= VersionIn(table[LowerBound(table, query)], p) <==> k > 0 && table[k - 1].versionSet >= query
  {
    hide Covered, LowerBound, VersionIn;
    var i, k := LowerBound(table, query), Covered(table, p, version);
    assert i < k ==> table[i].versionSet <= table[k - 1].versionSet;
    assert k < |table| && k < i ==> VersionIn(table[k], p) <= VersionIn(table[i], p);
  }

  /**
   * For an executable that records one version, of the active platform, both paths agree on a query if
   * and only if the query asks for more than version zero, or for the executable's own platform, or for
   * a set whose first entry the executable already covers.
   */
  lemma FastPathExactly(table: seq<VersionSetEntry>, active: Platform, v: ImageVersion, data: FastPathData,
                        query: BuildVersion)
    requires Known(BasePlatform(active)) && BasePlatform(v.platform) == BasePlatform(active)
    requires Monotone(table, BasePlatform(active)) && IsFastPathData(table, active, v.version, data)
    requires query.VersionSet? ==> LowerBound(table, query.version) < |table|
    ensures (AtLeastFast(data, query) <==> Meets(v, MapFromVersionSet(table, active, query))) <==>
            (query.version > 0
             || (query.Concrete? && query.platform == BasePlatform(active))
             || (query.VersionSet? && v.version >= VersionIn(table[0], BasePlatform(active))))
  {
    hide Covered, VersionIn, LowerBound, Monotone;
    if query.VersionSet? {
      assert LowerBound(table, query.version) > 0 ==> table[0].versionSet < query.version;
      SetEquivalent(table, BasePlatform(active), v.version, query.version);
    }
  }
}
