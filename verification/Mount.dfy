/** The mount probe: which images are mounted for writing, which for diagnosis, and which not at all. */
module Mount {
  import opened Bytes
  import opened Status
  import opened Layout
  import opened BlockDevice
  import opened FatChain
  import opened VolumeGeometry
  import opened RootValidator
  import opened Superblock
  import Formatter

  datatype State = MountedReadWrite | MountedDiagnostic | MountRejected

  datatype Reason =
    | NoReason | DeviceGeometry | SuperblocksInvalid | PrimaryInvalid | BackupInvalid
    | SuperblockDisagreement | RootChainUnsafe | DeviceIo

  datatype Trusted = TrustNone | TrustPrimary | TrustBackup | TrustBoth

  datatype Report = Report(state: State, reason: Reason, trusted: Trusted, boundsTrusted: bool)

  function StateFor(reason: Reason): State {
    match reason
    case NoReason => MountedReadWrite
    case PrimaryInvalid => MountedDiagnostic
    case BackupInvalid => MountedDiagnostic
    case SuperblockDisagreement => MountedDiagnostic
    case _ => MountRejected
  }

  function ReportFor(reason: Reason, trusted: Trusted, boundsTrusted: bool): Report {
    Report(StateFor(reason), reason, trusted, boundsTrusted)
  }

  // ----- which images deserve which mount -----------------------------------------------------------

  /** The values fit a device of this size and the one division it has. */
  ghost predicate Describes(s: Superblock, total: nat, g: Geometry) {
    && s.totalSectors == total && GeometryFor(total, g)
    && g.fatSectors == s.sectorsPerFat && SUPERBLOCK_SECTORS + g.fatSectors == s.registryStart
  }

  ghost predicate InBounds(copy: Sector, total: nat, g: Geometry) {
    Decode(copy).Success? && Describes(Decode(copy).value, total, g)
  }

  ghost predicate RootSafe(disk: Disk, g: Geometry) {
    ReservedSound(disk) && HasChain(DeviceTable(disk, g), g.Entries(), ROOT_CLUSTER)
  }

  /** Both copies agree, describe this device, and the root directory can be walked. */
  ghost predicate Trustworthy(disk: Disk, g: Geometry) {
    |disk| > 1 && disk[0] == disk[1] && InBounds(disk[0], |disk|, g) && RootSafe(disk, g)
  }

  /** At least one copy describes this device, and the root directory can be walked. */
  ghost predicate Inspectable(disk: Disk, g: Geometry) {
    |disk| > 1 && (InBounds(disk[0], |disk|, g) || InBounds(disk[1], |disk|, g)) && RootSafe(disk, g)
  }

  /** The report names the copy that was relied on, if any, and why it was not both. */
  ghost predicate Explains(disk: Disk, report: Report, s: Superblock, g: Geometry) {
    if |disk| < MINIMUM_SECTORS then report == ReportFor(DeviceGeometry, TrustNone, false)
    else
      var total := |disk|;
      var primary, backup := InBounds(disk[0], total, g), InBounds(disk[1], total, g);
      match report.reason
      case NoReason =>
        report.boundsTrusted && primary && disk[0] == disk[1] && s == Fields(disk[0]) && report.trusted == TrustBoth
      case SuperblockDisagreement =>
        && report.boundsTrusted && primary && backup && disk[0] != disk[1]
        && s == Fields(disk[0]) && report.trusted == TrustBoth
      case BackupInvalid =>
        report.boundsTrusted && primary && !backup && s == Fields(disk[0]) && report.trusted == TrustPrimary
      case PrimaryInvalid =>
        report.boundsTrusted && !primary && backup && s == Fields(disk[1]) && report.trusted == TrustBackup
      case RootChainUnsafe =>
        && report.boundsTrusted && (primary || backup) && !RootSafe(disk, g)
        && report.trusted == (if primary then TrustPrimary else TrustBackup)
      case DeviceGeometry =>
        && !report.boundsTrusted && report.trusted == TrustNone && NoneInBounds(disk)
        && (Decode(disk[0]).Success? || Decode(disk[1]).Success?)
      case SuperblocksInvalid =>
        && !report.boundsTrusted && report.trusted == TrustNone
        && Decode(disk[0]).Failure? && Decode(disk[1]).Failure?
      case DeviceIo => false
  }

  /** Neither copy describes this device. */
  ghost predicate NoneInBounds(disk: Disk)
    requires |disk| > 1
  {
    forall g :: !InBounds(disk[0], |disk|, g) && !InBounds(disk[1], |disk|, g)
  }

  method GeometryMatches(s: Superblock, device: Device) returns (matches: bool, g: Geometry)
    requires device.Valid() && device.sectorCount <= MAX64
    ensures matches ==> Describes(s, device.sectorCount, g)
    ensures !matches ==> forall h :: !Describes(s, device.sectorCount, h)
  {
    hide IsLeast;
    g := Geometry(0, 0, 0);
    if s.totalSectors != device.sectorCount {
      return false, g;
    }
    var status;
    status, g := CalculateGeometry(SECTOR_SIZE, device.sectorCount);
    matches := status == Ok && g.fatSectors == s.sectorsPerFat && SUPERBLOCK_SECTORS + g.fatSectors == s.registryStart;
    forall h | !matches ensures !Describes(s, device.sectorCount, h) {
      if status == Ok && GeometryFor(device.sectorCount, h) {
        GeometryUnique(device.sectorCount, g, h);
      }
    }
  }

  method CopyInBounds(copy: Sector, device: Device) returns (inBounds: bool, g: Geometry)
    requires device.Valid() && device.sectorCount <= MAX64
    ensures inBounds ==> InBounds(copy, device.sectorCount, g)
    ensures !inBounds ==> forall h :: !InBounds(copy, device.sectorCount, h)
  {
    hide IsLeast, Decode;
    g := Geometry(0, 0, 0);
    match Decode(copy) {
      case Failure(_) => inBounds := false;
      case Success(s) => inBounds, g := GeometryMatches(s, device);
    }
  }

  /**
    Unless a read fails: read-write exactly for trustworthy images, diagnostic exactly for images that
    are merely inspectable, rejected for all others.
  */
  method Probe(device: Device) returns (status: Status, report: Report, s: Superblock, g: Geometry)
    requires device.Valid() && device.sectorCount <= MAX64
    modifies device.log
    ensures status in {Ok, Io} && report.state == StateFor(report.reason)
    ensures device.log.faults == old(device.log.faults) + if status == Io then 1 else 0
    ensures status == Io ==> report.state == MountRejected && report.reason == DeviceIo
    ensures status == Ok ==> Explains(device.data, report, s, g)
    ensures status == Ok && report.state != MountRejected ==> Inspectable(device.data, g)
    ensures status == Ok && report.state == MountedReadWrite ==> Trustworthy(device.data, g)
    ensures status == Ok && report.state == MountedDiagnostic ==> forall h :: !Trustworthy(device.data, h)
    ensures status == Ok && report.state == MountRejected ==> forall h :: !Inspectable(device.data, h)
  {
    hide Decode, IsLeast, RootSafe, Fields, GeometryFor;
    g, s := Geometry(0, 0, 0), Superblock(0, 0, 0, 0, 0, Zeros(11));
    report := ReportFor(DeviceGeometry, TrustNone, false);
    if device.sectorCount < MINIMUM_SECTORS {
      TooSmall(device.sectorCount);
      return Ok, report, s, g;
    }
    var primary, backup;
    status, primary := device.Read(0);
    if !status.Failed() {
      status, backup := device.Read(1);
    }
    if status.Failed() {
      return Io, ReportFor(DeviceIo, TrustNone, false), s, g;
    }
    var primaryBounds, backupBounds, other;
    primaryBounds, g := CopyInBounds(primary, device);
    backupBounds, other := CopyInBounds(backup, device);
    if !primaryBounds && !backupBounds {
      var anyDecodes := Decode(primary).Success? || Decode(backup).Success?;
      return Ok, ReportFor(if anyDecodes then DeviceGeometry else SuperblocksInvalid, TrustNone, false), s, g;
    }
    SameBounds(primary, backup, device.sectorCount);
    if !primaryBounds {
      g := other;
    }
    status, report, s := Decide(device, primary, backup, primaryBounds, backupBounds, g);
  }

  lemma TooSmall(total: nat)
    requires total < MINIMUM_SECTORS
    ensures forall copy, h :: !InBounds(copy, total, h)
  {}

  /** Copies that both describe the device describe the same division of it. */
  lemma SameBounds(primary: Sector, backup: Sector, total: nat)
    ensures forall g, h :: InBounds(primary, total, g) && InBounds(backup, total, h) ==> g == h
    ensures forall g, h :: InBounds(primary, total, g) && InBounds(primary, total, h) ==> g == h
    ensures forall g, h :: InBounds(backup, total, g) && InBounds(backup, total, h) ==> g == h
  {
    hide Decode, GeometryFor;
    forall g, h | GeometryFor(total, g) && GeometryFor(total, h) ensures g == h {
      GeometryUnique(total, g, h);
    }
  }

  /** The rest of the probe, once at least one copy is in bounds. */
  method Decide(device: Device, primary: Sector, backup: Sector, primaryBounds: bool, backupBounds: bool, g: Geometry)
    returns (status: Status, report: Report, s: Superblock)
    requires device.Valid() && MINIMUM_SECTORS <= device.sectorCount
    requires primary == device.data[0] && backup == device.data[1]
    requires primaryBounds || backupBounds
    requires primaryBounds <==> InBounds(primary, device.sectorCount, g)
    requires backupBounds <==> InBounds(backup, device.sectorCount, g)
    requires forall h | InBounds(primary, device.sectorCount, h) :: primaryBounds && h == g
    requires forall h | InBounds(backup, device.sectorCount, h) :: backupBounds && h == g
    modifies device.log
    ensures status in {Ok, Io} && report.state == StateFor(report.reason)
    ensures device.log.faults == old(device.log.faults) + if status == Io then 1 else 0
    ensures status == Io ==> report.state == MountRejected && report.reason == DeviceIo
    ensures status == Ok ==> Explains(device.data, report, s, g)
    ensures status == Ok && report.state != MountRejected ==> Inspectable(device.data, g)
    ensures status == Ok && report.state == MountedReadWrite ==> Trustworthy(device.data, g)
    ensures status == Ok && report.state == MountedDiagnostic ==> forall h :: !Trustworthy(device.data, h)
    ensures status == Ok && report.state == MountRejected ==> forall h :: !Inspectable(device.data, h)
  {
    hide GeometryFor, Fields, Decode, ReservedSound, HasChain, DeviceTable, Describes;
    s := Superblock(0, 0, 0, 0, 0, Zeros(11));
    var single := if primaryBounds then TrustPrimary else TrustBackup;
    InBoundsGeometry(primary, backup, device.sectorCount, g);
    GeometryFits(device.sectorCount, g);
    var rootClusters;
    status, rootClusters := ValidateRootChain(device, g);
    if status.Failed() {
      if status == Corrupt {
        return Ok, ReportFor(RootChainUnsafe, single, true), s;
      }
      return status, ReportFor(DeviceIo, single, true), s;
    }
    DecodedFields(primary);
    assert RootSafe(device.data, g) by {
      ChainExists(device.data, g, rootClusters);
    }
    if primaryBounds && backupBounds && ClassifyPair(primary, backup) == ReadWrite {
      return Ok, ReportFor(NoReason, TrustBoth, true), Fields(primary);
    }
    var reason := if primaryBounds && backupBounds then SuperblockDisagreement
                  else if primaryBounds then BackupInvalid else PrimaryInvalid;
    return Ok, ReportFor(reason, if primaryBounds && backupBounds then TrustBoth else single, true),
           if primaryBounds then Fields(primary) else Fields(backup);
  }

  lemma InBoundsGeometry(primary: Sector, backup: Sector, total: nat, g: Geometry)
    ensures InBounds(primary, total, g) || InBounds(backup, total, g) ==> GeometryFor(total, g)
  {}

  lemma DecodedFields(copy: Sector)
    ensures Decode(copy).Success? ==> Decode(copy).value == Fields(copy)
  {}

  lemma ChainExists(disk: Disk, g: Geometry, count: nat)
    requires exists chain :: IsChain(DeviceTable(disk, g), g.Entries(), ROOT_CLUSTER, chain) && |chain| == count
    ensures HasChain(DeviceTable(disk, g), g.Entries(), ROOT_CLUSTER)
  {}

  /** The values that formatting stores can be stored, and describe the division. */
  lemma ValuesDescribe(total: nat, g: Geometry, serial: u32, text: Label)
    requires GeometryFor(total, g) && g.fatSectors <= 0xffff_ffff && total <= MAX64 && ValidLabel(text)
    ensures Storable(Formatter.Values(g, serial, text)) && Describes(Formatter.Values(g, serial, text), total, g)
  {
    hide ValidLabel, IsLeast;
    GeometryFits(total, g);
  }

  /** A volume as formatting leaves it is trustworthy. */
  lemma FormattedIsTrustworthy(disk: Disk, g: Geometry, serial: u32, text: Label)
    requires GeometryFor(|disk|, g) && g.fatSectors <= 0xffff_ffff && |disk| <= MAX64 && ValidLabel(text)
    requires Formatter.Formatted(disk, g, Formatter.Values(g, serial, text))
    ensures Trustworthy(disk, g) && forall h :: Trustworthy(disk, h) ==> h == g
  {
    hide GeometryFor, Storable, Decode, SuperblockBytes, DeviceTable, IsChain, ReservedSound, FatEntry, ValidLabel;
    var s := Formatter.Values(g, serial, text);
    ValuesDescribe(|disk|, g, serial, text);
    EncodeDecodes(s);
    Formatter.FormattedChain(disk, g, s);
    forall h | Trustworthy(disk, h) ensures h == g {
      GeometryUnique(|disk|, g, h);
    }
  }

  /**
    Format, then probe: if the format reports success and the probe's reads do not fail, the volume
    is mounted for writing with both copies trusted and the division that the format calculated.
  */
  method FormatThenProbe(device: Device, serial: u32, text: Label)
    returns (formatted: Status, probed: Status, calculated: Geometry, report: Report, s: Superblock, mounted: Geometry)
    requires device.Valid() && device.sectorCount <= MAX64
    modifies device, device.log
    ensures device.Valid()
    ensures formatted != Io && probed != Io <==> device.log.faults == old(device.log.faults)
    ensures formatted == Ok && probed == Ok ==>
            && report == ReportFor(NoReason, TrustBoth, true) && device.Quiet()
            && mounted == calculated && GeometryFor(device.sectorCount, mounted)
            && mounted.fatSectors <= 0xffff_ffff && s == Formatter.Values(mounted, serial, text)
            && s.totalSectors == device.sectorCount && s.sectorsPerFat == mounted.fatSectors && s.flags == 0
            && s.volumeSerial == serial && s.volumeLabel == text
            && IsChain(DeviceTable(device.data, mounted), mounted.Entries(), ROOT_CLUSTER, [ROOT_CLUSTER])
            && forall c :: 3 <= c < mounted.Entries() ==> DeviceTable(device.data, mounted)[c] == FREE
  {
    hide Formatter.Formatted, GeometryFor, InBounds, RootSafe, IsChain, DeviceTable, Fields, Formatter.Values;
    formatted, calculated := Formatter.Format(device, serial, text);
    probed, report, s, mounted := Probe(device);
    if formatted == Ok {
      FormattedIsTrustworthy(device.data, calculated, serial, text);
      TrustworthyIsInspectable(device.data, calculated);
      FormattedReads(device.data, calculated, serial, text);
      ValuesAre(device.sectorCount, calculated, serial, text);
    }
  }

  lemma ValuesAre(total: nat, g: Geometry, serial: u32, text: Label)
    requires GeometryFor(total, g) && g.fatSectors <= 0xffff_ffff && total <= MAX64
    ensures g.totalSectors == total
    ensures var s := Formatter.Values(g, serial, text);
      && s.totalSectors == total && s.sectorsPerFat == g.fatSectors && s.flags == 0
      && s.volumeSerial == serial && s.volumeLabel == text
  {}

  lemma FormattedReads(disk: Disk, g: Geometry, serial: u32, text: Label)
    requires GeometryFor(|disk|, g) && g.fatSectors <= 0xffff_ffff && |disk| <= MAX64 && ValidLabel(text)
    requires Formatter.Formatted(disk, g, Formatter.Values(g, serial, text))
    ensures |disk| > 1 && Fields(disk[0]) == Formatter.Values(g, serial, text)
    ensures IsChain(DeviceTable(disk, g), g.Entries(), ROOT_CLUSTER, [ROOT_CLUSTER])
    ensures forall c :: 3 <= c < g.Entries() ==> DeviceTable(disk, g)[c] == FREE
  {
    hide DeviceTable, IsChain, Fields, Decode, Encode, SuperblockBytes, FatEntry;
    var s := Formatter.Values(g, serial, text);
    ValuesDescribe(|disk|, g, serial, text);
    EncodeDecodes(s);
    DecodedFields(disk[0]);
    Formatter.FormattedChain(disk, g, s);
  }

  lemma TrustworthyIsInspectable(disk: Disk, g: Geometry)
    requires Trustworthy(disk, g)
    ensures Inspectable(disk, g)
  {}
}
