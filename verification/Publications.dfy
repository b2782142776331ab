/** The types the service puts on the wire, written down field by field, and shown to be of the
    shape that reads back. */
module Publications {
  import opened Wrappers
  import opened Wire

  /** A type whose values are read back as written, whose readings are its values, and which can be
      told from null. */
  ghost predicate Solid(t: Type) { Published(t) && Declared(t) && !t.Null? && !t.Union? && !Nullable(t) }

  ghost predicate FieldOk(f: Field) {
    Published(f.kind) && Declared(f.kind) && (f.default.Some? ==> HasType(f.default.value, f.kind))
  }

  // ----- kinds -----

  function Optional(t: Type): (r: Type)
    requires Solid(t)
    ensures Published(r) && Declared(r) && HasType(VNull, r)
  {
    assert [t, Null][1] in [t, Null];
    Union([t, Null])
  }

  function Sequence(t: Type): (r: Type)
    requires Solid(t)
    ensures Solid(r) && HasType(VTuple([]), r)
  {
    Many(t)
  }

  /** Fields under different names make a record. */
  function Made(fields: seq<Field>, maker: Maker): (r: Type)
    requires forall i, j :: 0 <= i < j < |fields| ==> fields[i].name != fields[j].name
    requires forall k :: 0 <= k < |fields| ==> FieldOk(fields[k])
    requires maker.ChannelDefinition? ==> ChannelFields(fields)
    ensures Solid(r) && r == Record(fields, maker)
  {
    hide ChannelFields, HasType;
    assert forall f :: f in fields ==> FieldOk(f);
    Record(fields, maker)
  }

  function Of(fields: seq<Field>): (r: Type)
    requires forall i, j :: 0 <= i < j < |fields| ==> fields[i].name != fields[j].name
    requires forall k :: 0 <= k < |fields| ==> FieldOk(fields[k])
    ensures Solid(r)
  {
    Made(fields, Plain)
  }

  /** A record, and the value that stands for an empty one. */
  function WithEmpty(fields: seq<Field>, values: seq<Value>): (r: (Type, Value))
    requires forall i, j :: 0 <= i < j < |fields| ==> fields[i].name != fields[j].name
    requires forall k :: 0 <= k < |fields| ==> FieldOk(fields[k])
    requires |values| == |fields| && forall k :: 0 <= k < |fields| ==> HasType(values[k], fields[k].kind)
    ensures Solid(r.0) && HasType(r.1, r.0)
  {
    (Of(fields), VRecord(Names(fields), values))
  }

  /** A record whose fields all have defaults, and which defaults to those. */
  function WithDefaults(fields: seq<Field>): (r: (Type, Value))
    requires forall i, j :: 0 <= i < j < |fields| ==> fields[i].name != fields[j].name
    requires forall k :: 0 <= k < |fields| ==> FieldOk(fields[k]) && fields[k].default.Some?
    ensures Solid(r.0) && HasType(r.1, r.0)
  {
    WithEmpty(fields, seq(|fields|, k requires 0 <= k < |fields| => fields[k].default.value))
  }

  lemma Basics()
    ensures Solid(Str) && Solid(Int) && Solid(Bool) && Solid(Float) && Solid(PathText) && Solid(WIDTH) && Solid(PHASE)
    ensures HasType(VInt(0), Int) && HasType(VEnum(JStr("20")), WIDTH)
  {
    Widths();
    Phases();
    hide WIDTH, PHASE;
  }

  lemma Widths()
    ensures Solid(WIDTH) && HasType(VEnum(JStr("20")), WIDTH)
  {
    assert WIDTH.members[0] == JStr("20");
  }

  lemma Phases()
    ensures Solid(PHASE)
  {}

  /** A long record is put together from two lists of fields, each with its names. */
  ghost predicate FieldsOk(fields: seq<Field>) {
    && (forall i, j :: 0 <= i < j < |fields| ==> fields[i].name != fields[j].name)
    && (forall k :: 0 <= k < |fields| ==> FieldOk(fields[k]))
  }

  function Listed(fields: seq<Field>): (r: seq<Field>)
    requires forall i, j :: 0 <= i < j < |fields| ==> fields[i].name != fields[j].name
    requires forall k :: 0 <= k < |fields| ==> FieldOk(fields[k])
    ensures FieldsOk(r)
  {
    fields
  }

  ghost predicate Apart(a: seq<Field>, b: seq<Field>) {
    forall i, j :: 0 <= i < |a| && 0 <= j < |b| ==> a[i].name != b[j].name
  }

  function Joined(a: seq<Field>, b: seq<Field>): (r: Type)
    requires FieldsOk(a) && FieldsOk(b) && Apart(a, b)
    ensures Solid(r)
  {
    hide FieldOk, Of;
    var all := a + b;
    assert forall i, j :: 0 <= i < j < |all| ==> all[i].name != all[j].name by {
      forall i, j | 0 <= i < j < |all| ensures all[i].name != all[j].name {
        if i < |a| <= j { assert a[i].name != b[j - |a|].name; }
        if |a| <= i { assert b[i - |a|].name != b[j - |a|].name; }
      }
    }
    Of(all)
  }

  // ----- fields -----

  function Need(name: string, kind: Type): (f: Field)
    requires Solid(kind)
    ensures f.name == name && f.kind == kind && FieldOk(f)
  {
    Field(name, kind, None)
  }

  function Either(name: string, kind: Type, value: Value): (f: Field)
    requires Solid(kind) && HasType(value, kind)
    ensures f.name == name && FieldOk(f) && f.default.Some?
  {
    Field(name, kind, Some(value))
  }

  function Maybe(name: string, t: Type): (f: Field)
    requires Solid(t)
    ensures f.name == name && FieldOk(f) && f.default.Some?
  {
    Field(name, Optional(t), Some(VNull))
  }

  /** A field that may be null, but must be given. */
  function Opt(name: string, t: Type): (f: Field)
    requires Solid(t)
    ensures f.name == name && f.kind == Optional(t) && FieldOk(f)
  {
    Field(name, Optional(t), None)
  }

  function Several(name: string, t: Type): (f: Field)
    requires Solid(t)
    ensures f.name == name && FieldOk(f) && f.default.Some?
  {
    Field(name, Sequence(t), Some(VTuple([])))
  }

  function Number(name: string, n: int): (f: Field)
    ensures f.name == name && f.kind == Int && FieldOk(f) && f.default.Some?
  {
    Field(name, Int, Some(VInt(n)))
  }

  function Flag(name: string, b: bool): (f: Field)
    ensures f.name == name && FieldOk(f) && f.default.Some?
  {
    Field(name, Bool, Some(VBool(b)))
  }

  function Text(name: string, s: string): (f: Field)
    ensures f.name == name && FieldOk(f) && f.default.Some?
  {
    Field(name, Str, Some(VStr(s)))
  }

  function Real(name: string, r: real): (f: Field)
    ensures f.name == name && FieldOk(f) && f.default.Some?
  {
    Field(name, Float, Some(VFloat(r)))
  }

  // ----- records -----

  const MIB := 1024 * 1024

  const WIDTH: Type := Enum([JStr("20"), JStr("40"), JStr("80"), JStr("160"), JStr("80+80"), JStr("320")])

  const PHASE: Type := Enum([JStr("idle"), JStr("starting"), JStr("running"), JStr("stopping"), JStr("stopped"),
    JStr("failed")])

  const CHANNEL_DEFINITION_FIELDS: seq<Field> := (Basics();
    [
     Need("primary_frequency_mhz", Int), Either("width", WIDTH, VEnum(JStr("20"))),
     Maybe("center_frequency1_mhz", Int), Maybe("center_frequency2_mhz", Int), Maybe("primary_channel", Int),
     Text("phy", "unknown"), Maybe("puncturing_bitmap", Int),
     Flag("complete", true), Flag("supported", true), Flag("ambiguous", false), Maybe("reason", Str)])

  lemma ChannelKindsOk()
    ensures ChannelFields(CHANNEL_DEFINITION_FIELDS)
  {
    hide FieldOk, HasType, Solid, Published, Declared;
  }

  function ChannelDefinition(): (r: Type)
    ensures Solid(r)
  {
    ChannelKindsOk();
    Basics();
    hide FieldOk, Need, Either, Maybe, Several, Number, Flag, Text, Real, Opt, Of, Optional, Sequence, HasType,
      Published, Declared, Solid, ChannelFields, Made;
    Made(CHANNEL_DEFINITION_FIELDS, Maker.ChannelDefinition)
  }

  function CaptureTarget(): (r: Type)
    ensures Solid(r)
  {
    hide *;
    Basics();
    Made([Need("interface", Str), Maybe("namespace", Str)], Maker.CaptureTarget)
  }

  function ClosedLog(): (r: Type)
    ensures Solid(r)
  {
    hide *;
    Basics();
    Of([Need("path", PathText), Need("device", Int), Need("inode", Int), Need("size_bytes", Int),
       Need("mtime_ns", Int), Need("closed_at", Float)])
  }

  function LoggingStatus(): (r: (Type, Value))
    ensures Solid(r.0) && HasType(r.1, r.0)
  {
    hide *;
    Basics();
    WithDefaults([Flag("active", false), Several("paths", PathText), Maybe("message", Str)])
  }

  function CaptureHealth(): (r: (Type, Value))
    ensures Solid(r.0) && HasType(r.1, r.0)
  {
    hide *;
    Basics();
    WithDefaults([Number("capture_records", 0), Number("decoded_frames", 0), Number("rejected_records", 0),
       Number("bad_fcs_frames", 0), Maybe("latest_timestamp", Float), Flag("fcs_metadata_available", false)])
  }

  function ExportStats(): (r: (Type, Value))
    ensures Solid(r.0) && HasType(r.1, r.0)
  {
    hide *;
    Basics();
    WithDefaults([Number("sections", 0), Number("interfaces", 0), Number("packet_blocks", 0), Number("beacons", 0),
       Number("non_beacons", 0), Number("truncated_packets", 0), Number("unsupported_link_packets", 0),
       Number("malformed_packets", 0), Number("untimestamped_packets", 0), Number("discarded_metadata_blocks", 0),
       Number("selected_bytes", 0)])
  }

  function ExportStatus(): (r: (Type, Value))
    ensures Solid(r.0) && HasType(r.1, r.0)
  {
    hide *;
    Basics();
    WithDefaults([Flag("requested", false), Flag("active", false), Maybe("path", PathText),
      Number("exported_beacons", 0),
       Number("active_beacons", 0), Number("skipped_beacons", 0), Number("queue_full", 0),
       Number("queued_bytes", 0), Number("retained_bytes", 0), Number("deleted_segments", 0),
       Flag("incomplete", false), Maybe("error", Str), Either("selection", ExportStats().0, ExportStats().1)])
  }

  function ExportLimits(): (r: (Type, Value))
    ensures Solid(r.0) && HasType(r.1, r.0)
  {
    hide *;
    Basics();
    WithDefaults([Number("segment_bytes", 256 * MIB), Real("rotation_seconds", 3600.0), Number("retained_bytes", 0),
       Number("retained_files", 0), Number("min_free_bytes", 256 * MIB), Number("queue_bytes", 8 * MIB),
       Number("queue_records", 64)])
  }

  function BeaconRecord(): (r: Type)
    ensures Solid(r)
  {
    hide *;
    Basics();
    Of([Need("timestamp", Float), Opt("ssid", Str), Need("bssid", Str), Opt("qbss_cu_raw", Int),
       Opt("qbss_cu_percent", Float), Opt("qbss_station_count", Int), Opt("qbss_admission_capacity", Int),
       Maybe("rssi_dbm", Int), Maybe("beacon_interval_tu", Int), Maybe("ap_name", Str), Maybe("vendor", Str),
       Maybe("channel_definition", ChannelDefinition())])
  }

  function BssidStateFirst(): (r: seq<Field>)
    ensures FieldsOk(r)
  {
    hide *;
    Basics();
    Listed([Need("bssid", Str), Opt("ssid", Str), Need("last_seen_ts", Float), Need("latest_beacon_ts", Float),
       Need("latest_beacon_record", BeaconRecord()), Need("window_beacon_count", Int),
       Opt("latest_station_count", Int), Opt("latest_qbss_cu_raw", Int), Opt("latest_qbss_cu_percent", Float)])
  }

  function BssidStateRest(): (r: seq<Field>)
    ensures FieldsOk(r)
  {
    hide *;
    Basics();
    Listed([Opt("latest_admission_capacity", Int), Opt("latest_rssi_dbm", Int), Opt("peak_rssi_dbm", Int),
       Maybe("latest_ap_name", Str), Maybe("latest_vendor", Str), Number("window_frame_count", 0),
       Number("window_retry_observed_frame_count", 0), Number("window_retry_frame_count", 0),
       Maybe("window_retry_percent", Float), Maybe("window_beacon_rate_percent", Float),
       Number("window_unique_client_mac_count", 0)])
  }

  lemma BssidStateApart()
    ensures Apart(BssidStateFirst(), BssidStateRest())
  {
    Basics();
    hide FieldOk, Need, Either, Maybe, Several, Number, Flag, Text, Real, Opt, Optional, HasType, Published, Declared,
      Solid, FieldsOk, ExportLimits;
  }

  function BssidState(): (r: Type)
    ensures Solid(r)
  {
    hide *;
    BssidStateApart();
    Joined(BssidStateFirst(), BssidStateRest())
  }

  function SecondStatsFirst(): (r: seq<Field>)
    ensures FieldsOk(r)
  {
    hide *;
    Basics();
    Listed([Need("second", Int), Need("unique_bssid_count", Int), Need("qbss_station_count_sum", Int),
       Opt("selected_qbss_cu_percent", Float), Opt("selected_qbss_ssid", Str), Opt("selected_qbss_bssid", Str),
       Opt("selected_qbss_rssi_dbm", Int), Opt("local_cu_percent", Float), Maybe("selected_qbss_cu_raw", Int),
       Maybe("selected_qbss_station_count", Int), Maybe("selected_qbss_strongest_rssi_dbm", Int),
       Maybe("selected_qbss_admission_capacity", Int), Number("received_frame_count", 0),
       Number("retry_observed_frame_count", 0)])
  }

  function SecondStatsRest(): (r: seq<Field>)
    ensures FieldsOk(r)
  {
    hide *;
    Basics();
    Listed([Number("retry_eligible_frame_count", 0), Number("retry_frame_count", 0), Maybe("retry_percent", Float),
       Maybe("selected_beacon_rate_percent", Float), Maybe("top_retry_bssid", Str),
       Number("unique_client_mac_count", 0), Maybe("top_station_count", Int), Maybe("top_station_source", Str),
       Maybe("top_station_ssid", Str), Maybe("top_station_bssid", Str), Number("beacon_received_count", 0),
       Number("beacon_expected_count", 0), Maybe("beacon_loss_percent", Float), Flag("sample_available", true)])
  }

  lemma SecondStatsApart()
    ensures Apart(SecondStatsFirst(), SecondStatsRest())
  {
    Basics();
    hide FieldOk, Need, Either, Maybe, Several, Number, Flag, Text, Real, Opt, Optional, HasType, Published, Declared,
      Solid, FieldsOk, ExportLimits;
  }

  function SecondStats(): (r: Type)
    ensures Solid(r)
  {
    hide *;
    SecondStatsApart();
    Joined(SecondStatsFirst(), SecondStatsRest())
  }

  function Composition(): (r: (Type, Value))
    ensures Solid(r.0) && HasType(r.1, r.0)
  {
    hide *;
    Basics();
    WithEmpty([Need("bssid_count", Int), Need("qbss_bssid_count", Int), Need("estimated_radio_count", Int),
       Need("strongest_radio_bssid_count", Int), Need("strongest_radio_bssids", Sequence(Str)),
       Opt("strongest_radio_ap_name", Str), Opt("strongest_radio_vendor", Str), Opt("displayed_ssid", Str),
       Opt("displayed_bssid", Str), Opt("displayed_rssi_dbm", Int), Number("strongest_radio_station_count_sum", 0)],
      [VInt(0), VInt(0), VInt(0), VInt(0), VTuple([]), VNull, VNull, VNull, VNull, VNull, VInt(0)])
  }

  function BssidReception(): (r: Type)
    ensures Solid(r)
  {
    hide *;
    Basics();
    Of([Need("bssid", Str), Need("received_count", Int), Need("expected_count", Int), Opt("loss_percent", Float)])
  }

  function Reception(): (r: (Type, Value))
    ensures Solid(r.0) && HasType(r.1, r.0)
  {
    hide *;
    Basics();
    WithEmpty([Need("strongest_radio_bssids", Sequence(Str)), Need("bssids", Sequence(BssidReception())),
       Need("received_count", Int), Need("expected_count", Int), Opt("loss_percent", Float),
       Opt("displayed_ssid", Str), Opt("displayed_bssid", Str), Opt("displayed_rssi_dbm", Int)],
      [VTuple([]), VTuple([]), VInt(0), VInt(0), VNull, VNull, VNull, VNull])
  }

  function RetryState(): (r: Type)
    ensures Solid(r)
  {
    hide *;
    Basics();
    Of([Need("bssid", Str), Opt("ssid", Str), Opt("rssi_dbm", Int), Need("window_frame_count", Int),
       Need("window_retry_observed_frame_count", Int), Need("retry_eligible_frame_count", Int),
       Need("window_retry_frame_count", Int), Opt("window_retry_percent", Float)])
  }

  function HostState(): (r: Type)
    ensures Solid(r)
  {
    hide *;
    Basics();
    Of([Need("mac", Str), Opt("vendor", Str), Need("locally_administered", Bool), Opt("ssid", Str),
       Need("bssid", Str), Need("last_activity", Float), Opt("last_tx_timestamp", Float),
       Opt("last_tx_rssi_dbm", Int), Need("tx_frames", Int), Need("rx_frames", Int), Opt("tx_retry_percent", Float)])
  }

  function Snapshot(): (r: Type)
    ensures Solid(r)
  {
    hide *;
    Basics();
    Of([Opt("generated_at", Float), Need("window_seconds", Int), Need("bssids", Sequence(BssidState())),
       Opt("selected_bssid", Str), Need("current", SecondStats()), Need("history", Sequence(SecondStats())),
       Maybe("top_station_bssid", Str), Maybe("top_station_count", Int), Maybe("top_station_source", Str),
       Maybe("top_retry_bssid", Str), Several("retry_bssids", RetryState()),
       Either("composition", Composition().0, Composition().1), Number("window_unique_client_mac_count", 0),
       Either("beacons", Reception().0, Reception().1), Several("hosts", HostState()),
       Flag("host_details_limited", false)])
  }

  function SessionConfigFirst(): (r: seq<Field>)
    ensures FieldsOk(r)
  {
    hide *;
    Basics();
    Listed([Text("iface", "auto"), Maybe("netns", Str), Text("capture_backend", "direct"),
       Maybe("core_diagnostics_path", PathText), Text("channel", "36"), Maybe("frequency_mhz", Int),
       Maybe("band", Str), Maybe("channel_width", WIDTH), Maybe("center_frequency1_mhz", Int),
       Maybe("center_frequency2_mhz", Int), Maybe("raw_capture_path", PathText), Real("interval_seconds", 1.0)])
  }

  function SessionConfigRest(): (r: seq<Field>)
    ensures FieldsOk(r)
  {
    hide *;
    Basics();
    Listed([Flag("local_cu", false), Flag("survey_debug", false), Maybe("stats_csv", PathText),
       Maybe("beacons_jsonl", PathText), Maybe("logging_control_path", PathText),
       Maybe("logging_status_path", PathText), Maybe("initial_logging_enabled", Bool),
       Number("min_free_bytes", 256 * MIB), Real("disk_check_interval_seconds", 30.0),
       Real("rotation_interval_seconds", 3600.0), Maybe("export_directory", PathText),
       Flag("initial_export_enabled", false), Either("export_limits", ExportLimits().0, ExportLimits().1)])
  }

  lemma SessionConfigApart()
    ensures Apart(SessionConfigFirst(), SessionConfigRest())
  {
    Basics();
    hide FieldOk, Need, Either, Maybe, Several, Number, Flag, Text, Real, Opt, Optional, HasType, Published, Declared,
      Solid, FieldsOk, ExportLimits;
  }

  function SessionConfig(): (r: Type)
    ensures Solid(r)
  {
    hide *;
    SessionConfigApart();
    Joined(SessionConfigFirst(), SessionConfigRest())
  }

  function RuntimePublication(): (r: Type)
    ensures Solid(r)
  {
    hide *;
    Basics();
    Of([Opt("session_id", Str), Need("revision", Int), Need("phase", PHASE), Opt("config", SessionConfig()),
       Need("snapshot", Snapshot()), Several("completed_stats", SecondStats()), Flag("collecting", true),
       Maybe("capture_width", Str), Either("logging", LoggingStatus().0, LoggingStatus().1), Maybe("notice", Str),
       Maybe("exit_code", Int), Maybe("error", Str), Several("closed_logs", ClosedLog()),
       Either("capture_health", CaptureHealth().0, CaptureHealth().1),
       Maybe("capture_definition", ChannelDefinition()), Flag("capture_definition_verified", false),
       Maybe("capture_target", CaptureTarget()), Either("beacon_export", ExportStatus().0, ExportStatus().1),
       Several("closed_exports", ClosedLog())])
  }

  lemma SolidRoundTrip(t: Type, v: Value)
    requires Solid(t) && HasType(v, t)
    ensures FromWire(t, ToWire(v)) == Some(v)
  {
    hide HasType, FromWire, ToWire, Published, Declared, Nullable;
    RoundTrip(t, v);
  }

  lemma SolidPassedOn(t: Type, j: Json)
    requires Solid(t) && FromWire(t, j).Some?
    ensures HasType(FromWire(t, j).value, t) && FromWire(t, ToWire(FromWire(t, j).value)) == FromWire(t, j)
  {
    hide HasType, FromWire, ToWire, Published, Declared, Nullable;
    ReadIsTyped(t, j);
    ReadRoundTrips(t, j);
  }

  /** A publication is read back as it was written, and so is a configuration. */
  lemma PublicationRoundTrip(v: Value)
    ensures HasType(v, RuntimePublication()) ==> FromWire(RuntimePublication(), ToWire(v)) == Some(v)
    ensures HasType(v, SessionConfig()) ==> FromWire(SessionConfig(), ToWire(v)) == Some(v)
  {
    hide *;
    if HasType(v, RuntimePublication()) { SolidRoundTrip(RuntimePublication(), v); }
    if HasType(v, SessionConfig()) { SolidRoundTrip(SessionConfig(), v); }
  }

  /** Whatever is read as a publication is one, and is passed on unchanged. */
  lemma PublicationPassedOn(j: Json)
    requires FromWire(RuntimePublication(), j).Some?
    ensures HasType(FromWire(RuntimePublication(), j).value, RuntimePublication())
    ensures FromWire(RuntimePublication(), ToWire(FromWire(RuntimePublication(), j).value))
      == FromWire(RuntimePublication(), j)
  {
    hide *;
    SolidPassedOn(RuntimePublication(), j);
  }
}
