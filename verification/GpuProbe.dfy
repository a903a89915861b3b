// FFmpeg capability detection of src/deps.py: which GPU encoders work is found by
// running FFmpeg, under one time budget, and remembered in a cache that holds the
// results for one executable.
//
// Everything the host answers is a parameter: what an executable lists, and how a
// probe run ends.
module GpuProbe {
  import opened PyText
  import opened Wrappers

  const BUDGET := 8.0
  const PIXEL_FORMATS := ["yuv420p", "yuv420p10le"]

  datatype Backend = Nvenc | Qsv | Amf | VideoToolbox

  const BACKENDS := [Nvenc, Qsv, Amf, VideoToolbox]

  function EncoderOf(b: Backend): string {
    match b
    case Nvenc => "h264_nvenc"
    case Qsv => "h264_qsv"
    case Amf => "h264_amf"
    case VideoToolbox => "h264_videotoolbox"
  }

  /** `_gpu_backend_supported_on_platform`, of `sys.platform` */
  predicate Supported(b: Backend, platform: string) {
    match b
    case VideoToolbox => platform == "darwin"
    case Amf => platform == "win32"
    case _ => "win" <= platform || "linux" <= platform
  }

  /** Which encoders are tried where. */
  lemma SupportedIff(platform: string)
    ensures Supported(VideoToolbox, platform) <==> platform == "darwin"
    ensures Supported(Amf, platform) <==> platform == "win32"
    ensures Supported(Nvenc, platform) <==> (|platform| >= 3 && platform[..3] == "win") ||
                                            (|platform| >= 5 && platform[..5] == "linux")
    ensures Supported(Qsv, platform) <==> Supported(Nvenc, platform)
  {
  }

  lemma EncodersOf()
    ensures EncoderOf(Nvenc) == "h264_nvenc" && EncoderOf(Qsv) == "h264_qsv"
    ensures EncoderOf(Amf) == "h264_amf" && EncoderOf(VideoToolbox) == "h264_videotoolbox"
    ensures forall b: Backend :: b in BACKENDS
    ensures PIXEL_FORMATS == ["yuv420p", "yuv420p10le"]
  {
    forall b: Backend
      ensures b in BACKENDS
    {
      assert BACKENDS[match b case Nvenc => 0 case Qsv => 1 case Amf => 2 case VideoToolbox => 3] == b;
    }
  }

  datatype Capability = Capability(
    backend: Backend, declared: bool, verified: bool, failureReason: Option<string>)

  const NOT_DECLARED := (b: Backend) => Capability(b, false, false, None)

  // ---------- one probe ----------

  /** How one run of FFmpeg ends: an exception by type name, or an exit code with
      what it printed. */
  datatype Outcome =
    | Raised(name: string)
    | Exited(code: int, printedNothing: bool, stderr: string)

  datatype RunResult = RunResult(outcome: Outcome, elapsed: real)

  /** executable, backend, pixel format, timeout */
  type Runner = (string, Backend, string, real) -> RunResult

  ghost predicate RespectsTimeout(runner: Runner) {
    forall exe, b, format, timeout :: 0.0 <= timeout ==> 0.0 <= runner(exe, b, format, timeout).elapsed <= timeout
  }

  predicate Works(o: Outcome) {
    o.Exited? && o.code == 0 && !o.printedNothing
  }

  function SignedDecimal(n: int): string {
    if n < 0 then "-" + Decimal(-n) else Decimal(n)
  }

  function Reason(o: Outcome): string
    requires !Works(o)
  {
    match o
    case Raised(name) => name
    case Exited(code, _, stderr) =>
      var text := StripSpace(stderr);
      if text != "" then (if |text| > 450 then text[..450] else text)
      else if code != 0 then "ffmpeg_exit_" + SignedDecimal(code)
      else "empty_output"
  }

  function Failure(b: Backend, format: string, reason: string): Capability {
    Capability(b, true, false, Some(format + ": " + reason))
  }

  function ProbeFrom(exe: string, b: Backend, formats: seq<string>, remaining: real, runner: Runner): Capability {
    if formats == [] then Capability(b, true, true, None)
    else if remaining <= 0.0 then Failure(b, formats[0], "probe_timeout")
    else
      var r := runner(exe, b, formats[0], remaining);
      if Works(r.outcome) then ProbeFrom(exe, b, formats[1..], remaining - r.elapsed, runner)
      else Failure(b, formats[0], Reason(r.outcome))
  }

  function Probe(exe: string, b: Backend, runner: Runner): Capability {
    ProbeFrom(exe, b, PIXEL_FORMATS, BUDGET, runner)
  }

  /** How a probe of the first format ends, by the outcome of its run: what works goes
      on to the next format, anything else names the format and the reason. */
  lemma FirstOutcome(exe: string, b: Backend, formats: seq<string>, remaining: real, runner: Runner)
    requires formats != []
    ensures var c := ProbeFrom(exe, b, formats, remaining, runner);
            var run := runner(exe, b, formats[0], remaining);
            var failed := (reason: string) => Capability(b, true, false, Some(formats[0] + ": " + reason));
            if remaining <= 0.0 then c == failed("probe_timeout")
            else
              match run.outcome
              case Raised(name) => c == failed(name)
              case Exited(code, printedNothing, stderr) =>
                var text := StripSpace(stderr);
                if code == 0 && !printedNothing
                then c == ProbeFrom(exe, b, formats[1..], remaining - run.elapsed, runner)
                else if text != "" then c == failed(if |text| > 450 then text[..450] else text)
                else if code == 0 then c == failed("empty_output")
                else c == failed("ffmpeg_exit_" + SignedDecimal(code))
    ensures ProbeFrom(exe, b, [], remaining, runner) == Capability(b, true, true, None)
  {
  }

  /** Exit codes in decimal, with a sign when the process was killed by a signal. */
  lemma SignedDecimalIs(n: int, k: nat)
    requires k >= 1 && (if n < 0 then -n else n) < Power10(k)
    ensures var digits := if n < 0 then SignedDecimal(n)[1..] else SignedDecimal(n);
            && (n < 0 ==> SignedDecimal(n)[0] == '-')
            && AllDigits(digits) && Value(digits) == if n < 0 then -n else n
  {
    DecimalValue(if n < 0 then -n else n, k);
  }

  /** The part of `budget` left before the run for format `k`, if it is reached. */
  function LeftBefore(exe: string, b: Backend, formats: seq<string>, budget: real, runner: Runner, k: nat): real
    requires k <= |formats|
  {
    if k == 0 then budget
    else
      var left := LeftBefore(exe, b, formats, budget, runner, k - 1);
      left - runner(exe, b, formats[k - 1], left).elapsed
  }

  ghost predicate FormatWorks(exe: string, b: Backend, formats: seq<string>, budget: real, runner: Runner, k: nat)
    requires k < |formats|
  {
    var left := LeftBefore(exe, b, formats, budget, runner, k);
    left > 0.0 && Works(runner(exe, b, formats[k], left).outcome)
  }

  lemma {:induction false} LeftAfterFirst(exe: string, b: Backend, formats: seq<string>, budget: real,
                                          runner: Runner, k: nat)
    requires formats != [] && k <= |formats| - 1
    ensures LeftBefore(exe, b, formats[1..], budget - runner(exe, b, formats[0], budget).elapsed, runner, k)
            == LeftBefore(exe, b, formats, budget, runner, k + 1)
  {
    if k > 0 {
      LeftAfterFirst(exe, b, formats, budget, runner, k - 1);
    } else {
      assert LeftBefore(exe, b, formats, budget, runner, 0) == budget;
    }
  }

  /** A probe verifies exactly when every format works within what the formats
      before it left of the shared budget. */
  lemma {:induction false} VerifiedIff(exe: string, b: Backend, formats: seq<string>, budget: real, runner: Runner)
    ensures ProbeFrom(exe, b, formats, budget, runner).verified <==>
            forall k :: 0 <= k < |formats| ==> FormatWorks(exe, b, formats, budget, runner, k)
  {
    if formats != [] {
      var r := runner(exe, b, formats[0], budget);
      var rest := formats[1..];
      assert FormatWorks(exe, b, formats, budget, runner, 0) <==> budget > 0.0 && Works(r.outcome);
      if budget > 0.0 && Works(r.outcome) {
        var left := budget - r.elapsed;
        VerifiedIff(exe, b, rest, left, runner);
        forall k | 0 <= k < |rest|
          ensures FormatWorks(exe, b, rest, left, runner, k) <==> FormatWorks(exe, b, formats, budget, runner, k + 1)
        {
          LeftAfterFirst(exe, b, formats, budget, runner, k);
        }
        forall k | 0 < k < |formats|
          ensures FormatWorks(exe, b, formats, budget, runner, k) <==> FormatWorks(exe, b, rest, left, runner, k - 1)
        {
          LeftAfterFirst(exe, b, formats, budget, runner, k - 1);
        }
      }
    }
  }

  /** `_probe_gpu_encoder`, for any list of formats: one deadline for all runs. */
  method ProbeGpuEncoder(exe: string, b: Backend, formats: seq<string>, runner: Runner, start: real)
    returns (r: Capability, finish: real)
    ensures r == ProbeFrom(exe, b, formats, BUDGET, runner)
    ensures RespectsTimeout(runner) ==> start <= finish <= start + 8.0
    ensures r.declared && r.backend == b
  {
    var deadline := start + BUDGET;
    finish := start;
    var i := 0;
    while i < |formats|
      invariant 0 <= i <= |formats|
      invariant ProbeFrom(exe, b, formats, BUDGET, runner)
                == ProbeFrom(exe, b, formats[i..], deadline - finish, runner)
      invariant RespectsTimeout(runner) ==> start <= finish <= deadline
    {
      var remaining := deadline - finish;
      if remaining <= 0.0 {
        return Failure(b, formats[i], "probe_timeout"), finish;
      }
      var result := runner(exe, b, formats[i], remaining);
      finish := finish + result.elapsed;
      if !Works(result.outcome) {
        return Failure(b, formats[i], Reason(result.outcome)), finish;
      }
      assert formats[i..][1..] == formats[i + 1..];
      i := i + 1;
    }
    r := Capability(b, true, true, None);
  }

  // ---------- detection with a cache ----------

  type Cache = map<string, map<Backend, Capability>>

  function StateOf(b: Backend, exe: string, encoders: set<string>, cached: Option<map<Backend, Capability>>,
                   platform: string, runner: Runner): Capability
  {
    if EncoderOf(b) !in encoders then NOT_DECLARED(b)
    else if !Supported(b, platform) then Capability(b, true, false, Some("unsupported_platform"))
    else if cached.Some? && b in cached.value then cached.value[b]
    else Probe(exe, b, runner)
  }

  function States(exe: string, encoders: set<string>, cached: Option<map<Backend, Capability>>,
                  platform: string, runner: Runner): map<Backend, Capability>
  {
    StatesAmong(BACKENDS, exe, encoders, cached, platform, runner)
  }

  function StatesAmong(bs: seq<Backend>, exe: string, encoders: set<string>, cached: Option<map<Backend, Capability>>,
                       platform: string, runner: Runner): map<Backend, Capability>
  {
    map b | b in bs :: StateOf(b, exe, encoders, cached, platform, runner)
  }

  /** The four ways to a backend's state, and what each of them says. */
  lemma StateIs(b: Backend, exe: string, encoders: set<string>, cached: Option<map<Backend, Capability>>,
                platform: string, runner: Runner)
    ensures var c := StateOf(b, exe, encoders, cached, platform, runner);
            if EncoderOf(b) !in encoders then c == Capability(b, false, false, None)
            else if !Supported(b, platform) then c == Capability(b, true, false, Some("unsupported_platform"))
            else if cached.None? || b !in cached.value then c == ProbeFrom(exe, b, PIXEL_FORMATS, 8.0, runner)
            else c == cached.value[b]
  {
  }

  lemma StatesSnoc(bs: seq<Backend>, b: Backend, exe: string, encoders: set<string>,
                   cached: Option<map<Backend, Capability>>, platform: string, runner: Runner)
    ensures StatesAmong(bs + [b], exe, encoders, cached, platform, runner) ==
            StatesAmong(bs, exe, encoders, cached, platform, runner)
              [b := StateOf(b, exe, encoders, cached, platform, runner)]
  {
  }

  function Recalled(cache: Cache, key: string, force: bool): Option<map<Backend, Capability>> {
    if !force && key in cache then Some(cache[key]) else None
  }

  // ---------- refreshing ----------

  datatype Listing =
    | Unusable(error: string)
    | Lists(encoders: set<string>, muxers: set<string>, filters: set<string>)

  datatype Capabilities = Capabilities(
    available: bool, encoders: set<string>, muxers: set<string>, filters: set<string>,
    h264Encoder: Option<string>, hlsTranscoding: bool, gpuEncoders: map<Backend, Capability>,
    hlsTranscodingGpu: bool, audioAnalysis: bool, videoThumbnails: bool, error: Option<string>)

  /** The answers of the host during one refresh. */
  datatype Host = Host(
    listing: string -> Listing, runner: Runner, executable: string -> bool,
    ffmpegOnPath: Option<string>, ffprobeOnPath: Option<string>, hideTools: bool)

  function Nothing(error: string): Capabilities {
    Capabilities(false, {}, {}, {}, None, false, map[], false, false, false, Some(error))
  }

  function Summary(l: Listing, gpu: map<Backend, Capability>): Capabilities
    requires l.Lists?
  {
    var h264 := if "libx264" in l.encoders then Some("libx264")
                else if "libopenh264" in l.encoders then Some("libopenh264") else None;
    var hls := "aac" in l.encoders && "mpegts" in l.muxers;
    Capabilities(
      true, l.encoders, l.muxers, l.filters, h264,
      h264.Some? && hls,
      gpu,
      hls && exists b :: b in gpu && gpu[b].verified,
      "loudnorm" in l.filters,
      "mjpeg" in l.encoders && "image2" in l.muxers && "scale" in l.filters,
      None)
  }

  /** What the capabilities of a usable executable say. */
  lemma SummaryIs(l: Listing, gpu: map<Backend, Capability>)
    requires l.Lists?
    ensures var c := Summary(l, gpu);
            var hls := "aac" in l.encoders && "mpegts" in l.muxers;
            && c.available && c.error.None? && c.gpuEncoders == gpu
            && c.encoders == l.encoders && c.muxers == l.muxers && c.filters == l.filters
            && (c.h264Encoder == Some("libx264") <==> "libx264" in l.encoders)
            && (c.h264Encoder == Some("libopenh264") <==> "libopenh264" in l.encoders && "libx264" !in l.encoders)
            && (c.h264Encoder == None <==> "libopenh264" !in l.encoders && "libx264" !in l.encoders)
            && (c.hlsTranscoding <==> hls && ("libx264" in l.encoders || "libopenh264" in l.encoders))
            && (c.hlsTranscodingGpu <==> hls && exists b :: b in gpu && gpu[b].verified)
            && (c.audioAnalysis <==> "loudnorm" in l.filters)
            && (c.videoThumbnails <==> {"mjpeg"} <= l.encoders && {"image2"} <= l.muxers && {"scale"} <= l.filters)
  {
  }

  /** Without a usable executable nothing is available. */
  lemma NothingIs(error: string)
    ensures var c := Nothing(error);
            && !c.available && c.error == Some(error) && c.encoders == {} && c.muxers == {} && c.filters == {}
            && c.h264Encoder == None && c.gpuEncoders == map[]
            && !c.hlsTranscoding && !c.hlsTranscodingGpu && !c.audioAnalysis && !c.videoThumbnails
  {
  }

  /** The configured executable, when it is one FFmpeg can be listed from. */
  predicate ManualUsable(configured: string, host: Host) {
    configured != "" && host.executable(configured) && host.listing(configured).Lists?
  }

  /** What FFMPEG_MANUAL_PATH_ERROR becomes. */
  function ManualError(configured: string, host: Host): Option<string> {
    if configured == "" || ManualUsable(configured, host) then None
    else if !host.executable(configured) then Some("ffmpeg_manual_path_not_executable")
    else if host.listing(configured).error != "" then Some(host.listing(configured).error)
    else Some("ffmpeg_manual_path_invalid")
  }

  function Chosen(configured: string, host: Host): Option<string> {
    if ManualUsable(configured, host) then Some(configured) else host.ffmpegOnPath
  }

  function Listed(exe: Option<string>, host: Host): Option<string> {
    if exe.Some? && exe.value != "" && host.listing(exe.value).Lists? then exe else None
  }

  /** The executable whose encoders this refresh looks at. A refresh looks at no more
      than one: detection comes after everything that can make a candidate fail. */
  function Examined(configured: string, host: Host): Option<string> {
    Listed(Chosen(configured, host), host)
  }

  /** The choice: the configured path if it is executable and can be listed, else what is
      on the PATH; and the error of a configured path that is not chosen. */
  lemma ChoiceIs(configured: string, host: Host)
    ensures var usable := configured != "" && host.executable(configured) && host.listing(configured).Lists?;
            && Chosen(configured, host) == (if usable then Some(configured) else host.ffmpegOnPath)
            && (ManualError(configured, host).None? <==> configured == "" || usable)
            && (configured != "" && !host.executable(configured) ==>
                  ManualError(configured, host) == Some("ffmpeg_manual_path_not_executable"))
            && (configured != "" && host.executable(configured) && host.listing(configured).Unusable?
                && host.listing(configured).error != "" ==>
                  ManualError(configured, host) == Some(host.listing(configured).error))
            && (Examined(configured, host).Some? <==>
                  Chosen(configured, host).Some? && Chosen(configured, host).value != ""
                  && host.listing(Chosen(configured, host).value).Lists?)
            && (Examined(configured, host).Some? ==> Examined(configured, host) == Chosen(configured, host))
  {
  }

  /** What `_detect_ffmpeg_capabilities` makes of the cache for one candidate. */
  function CacheIn(exe: Option<string>, host: Host, cache: Cache, force: bool,
                   platform: string, norm: string -> string): Cache
  {
    match Listed(exe, host)
    case Some(e) =>
      map[norm(e) := States(e, host.listing(e).encoders, Recalled(cache, norm(e), force), platform, host.runner)]
    case None => cache
  }

  /** And what it returns. */
  function CapabilitiesIn(exe: Option<string>, host: Host, cache: Cache, force: bool,
                          platform: string, norm: string -> string): Capabilities
  {
    match Listed(exe, host)
    case Some(e) =>
      var listing := host.listing(e);
      Summary(listing, States(e, listing.encoders, Recalled(cache, norm(e), force), platform, host.runner))
    case None =>
      Nothing(if exe.None? || exe.value == "" then "ffmpeg_not_found" else host.listing(exe.value).error)
  }

  /** What FFMPEG_CAPABILITIES becomes. */
  function Refreshed(configured: string, host: Host, cache: Cache, force: bool,
                     platform: string, norm: string -> string): Capabilities
  {
    if host.hideTools then Nothing("ffmpeg_not_found")
    else CapabilitiesIn(Chosen(configured, host), host, cache, force, platform, norm)
  }

  function CacheAfter(configured: string, host: Host, cache: Cache, force: bool,
                      platform: string, norm: string -> string): Cache
  {
    CacheIn(Chosen(configured, host), host, cache, force, platform, norm)
  }

  /** One call of `refresh_ffmpeg_capabilities`. */
  datatype Refresh = Refresh(configured: string, host: Host, force: bool)

  function CacheAt(rs: seq<Refresh>, n: nat, platform: string, norm: string -> string): Cache
    requires n <= |rs|
  {
    if n == 0 then map[]
    else CacheAfter(rs[n - 1].configured, rs[n - 1].host, CacheAt(rs, n - 1, platform, norm), rs[n - 1].force,
                    platform, norm)
  }

  function ResultAt(rs: seq<Refresh>, n: nat, platform: string, norm: string -> string): Capabilities
    requires n < |rs|
  {
    Refreshed(rs[n].configured, rs[n].host, CacheAt(rs, n, platform, norm), rs[n].force, platform, norm)
  }

  lemma CacheStaysSmall(r: Refresh, cache: Cache, platform: string, norm: string -> string)
    requires |cache| <= 1
    ensures |CacheAfter(r.configured, r.host, cache, r.force, platform, norm)| <= 1
  {
    var examined := Examined(r.configured, r.host);
    if examined.Some? {
      SingletonSize(norm(examined.value), CacheAfter(r.configured, r.host, cache, r.force, platform, norm));
    }
  }

  lemma SingletonSize(key: string, cache: Cache)
    requires cache.Keys == {key}
    ensures |cache| == 1
  {
    assert |cache| == |cache.Keys|;
  }

  /** After any run the cache remembers at most one executable. */
  lemma {:induction false} CacheHoldsOne(rs: seq<Refresh>, n: nat, platform: string, norm: string -> string)
    requires n <= |rs|
    ensures |CacheAt(rs, n, platform, norm)| <= 1
    decreases n
  {
    if n > 0 {
      CacheHoldsOne(rs, n - 1, platform, norm);
      CacheStaysSmall(rs[n - 1], CacheAt(rs, n - 1, platform, norm), platform, norm);
    }
  }

  // ---------- verified means probed ----------

  /** A refresh examined an executable with this normalised path, and its probe of `b`
      succeeded. */
  ghost predicate Probed(r: Refresh, key: string, b: Backend, norm: string -> string) {
    var examined := Examined(r.configured, r.host);
    && examined.Some? && norm(examined.value) == key
    && Probe(examined.value, b, r.host.runner).verified
  }

  predicate RemembersVerified(cache: Cache, key: string, b: Backend) {
    key in cache && b in cache[key] && cache[key][b].verified
  }

  lemma CacheCases(r: Refresh, before: Cache, platform: string, norm: string -> string)
    ensures CacheAfter(r.configured, r.host, before, r.force, platform, norm) ==
            match Examined(r.configured, r.host)
            case None => before
            case Some(e) =>
              var encoders, recalled := r.host.listing(e).encoders, Recalled(before, norm(e), r.force);
              map[norm(e) := States(e, encoders, recalled, platform, r.host.runner)]
  {
  }

  lemma StateVerified(b: Backend, exe: string, encoders: set<string>, cached: Option<map<Backend, Capability>>,
                      platform: string, runner: Runner)
    requires StateOf(b, exe, encoders, cached, platform, runner).verified
    ensures (cached.Some? && b in cached.value && cached.value[b].verified) || Probe(exe, b, runner).verified
  {
  }

  /** After one refresh a verified entry was there before, or was probed just now. */
  lemma VerifiedInCache(r: Refresh, before: Cache, key: string, b: Backend, platform: string, norm: string -> string)
    requires RemembersVerified(CacheAfter(r.configured, r.host, before, r.force, platform, norm), key, b)
    ensures RemembersVerified(before, key, b) || Probed(r, key, b, norm)
  {
    CacheCases(r, before, platform, norm);
    var examined := Examined(r.configured, r.host);
    if examined.Some? {
      StateVerified(b, examined.value, r.host.listing(examined.value).encoders,
                    Recalled(before, norm(examined.value), r.force), platform, r.host.runner);
    }
  }

  /** One of the first `n` refreshes probed this path and found `b` working. */
  ghost predicate ProbedBefore(rs: seq<Refresh>, n: nat, key: string, b: Backend, norm: string -> string)
    requires n <= |rs|
  {
    exists m :: 0 <= m < n && Probed(rs[m], key, b, norm)
  }

  /** Every verified entry was probed by one of the first `n` refreshes. */
  ghost predicate AllProbed(cache: Cache, rs: seq<Refresh>, n: nat, norm: string -> string)
    requires n <= |rs|
  {
    forall key, b :: RemembersVerified(cache, key, b) ==> ProbedBefore(rs, n, key, b, norm)
  }

  lemma ProbedStep(before: Cache, rs: seq<Refresh>, n: nat, key: string, b: Backend,
                   platform: string, norm: string -> string)
    requires 0 < n <= |rs| && AllProbed(before, rs, n - 1, norm)
    requires var r := rs[n - 1];
             RemembersVerified(CacheAfter(r.configured, r.host, before, r.force, platform, norm), key, b)
    ensures ProbedBefore(rs, n, key, b, norm)
  {
    VerifiedInCache(rs[n - 1], before, key, b, platform, norm);
    if RemembersVerified(before, key, b) {
      var m :| 0 <= m < n - 1 && Probed(rs[m], key, b, norm);
    }
  }

  lemma AllProbedStep(before: Cache, after: Cache, rs: seq<Refresh>, n: nat, platform: string, norm: string -> string)
    requires 0 < n <= |rs| && AllProbed(before, rs, n - 1, norm)
    requires var r := rs[n - 1]; after == CacheAfter(r.configured, r.host, before, r.force, platform, norm)
    ensures AllProbed(after, rs, n, norm)
  {
    forall key, b | RemembersVerified(after, key, b)
      ensures ProbedBefore(rs, n, key, b, norm)
    {
      ProbedStep(before, rs, n, key, b, platform, norm);
    }
  }

  lemma {:induction false} CacheAllProbed(rs: seq<Refresh>, n: nat, platform: string, norm: string -> string)
    requires n <= |rs|
    ensures AllProbed(CacheAt(rs, n, platform, norm), rs, n, norm)
    decreases n
  {
    if n > 0 {
      var before, after := CacheAt(rs, n - 1, platform, norm), CacheAt(rs, n, platform, norm);
      CacheAllProbed(rs, n - 1, platform, norm);
      AllProbedStep(before, after, rs, n, platform, norm);
    }
  }

  lemma CachedVerified(rs: seq<Refresh>, n: nat, key: string, b: Backend, platform: string, norm: string -> string)
    returns (m: nat)
    requires n <= |rs| && RemembersVerified(CacheAt(rs, n, platform, norm), key, b)
    ensures m < n && Probed(rs[m], key, b, norm)
  {
    CacheAllProbed(rs, n, platform, norm);
    m :| 0 <= m < n && Probed(rs[m], key, b, norm);
  }

  /** Over every run of refreshes on any hosts: a backend shown as verified is listed
      now by the executable in use, supported here, and each pixel format worked
      within the shared budget in one probe, now or earlier, of that path. */
  lemma VerifiedWasProbed(rs: seq<Refresh>, n: nat, b: Backend, platform: string, norm: string -> string)
    returns (m: nat)
    requires n < |rs|
    requires b in ResultAt(rs, n, platform, norm).gpuEncoders
    requires ResultAt(rs, n, platform, norm).gpuEncoders[b].verified
    ensures EncoderOf(b) in ResultAt(rs, n, platform, norm).encoders && Supported(b, platform)
    ensures m <= n
    ensures var current, probed := Examined(rs[n].configured, rs[n].host), Examined(rs[m].configured, rs[m].host);
            && current.Some? && probed.Some? && norm(current.value) == norm(probed.value)
            && FormatWorks(probed.value, b, PIXEL_FORMATS, BUDGET, rs[m].host.runner, 0)
            && FormatWorks(probed.value, b, PIXEL_FORMATS, BUDGET, rs[m].host.runner, 1)
  {
    var exe := Examined(rs[n].configured, rs[n].host).value;
    var cache := CacheAt(rs, n, platform, norm);
    var recalled := Recalled(cache, norm(exe), rs[n].force);
    if recalled.Some? && b in recalled.value {
      m := CachedVerified(rs, n, norm(exe), b, platform, norm);
    } else {
      m := n;
    }
    VerifiedIff(Examined(rs[m].configured, rs[m].host).value, b, PIXEL_FORMATS, BUDGET, rs[m].host.runner);
  }

  // ---------- the cache is transparent on a stable host ----------

  /** What an executable lists and how its probes end depends on its normalised path. */
  ghost predicate Stable(listing: string -> Listing, runner: Runner, norm: string -> string) {
    && (forall e, e' :: norm(e) == norm(e') ==> listing(e) == listing(e'))
    && (forall e, e', b :: norm(e) == norm(e') ==> Probe(e, b, runner) == Probe(e', b, runner))
  }

  /** Every stored result is the one a probe-everything detection would give. */
  ghost predicate Truthful(cache: Cache, listing: string -> Listing, runner: Runner,
                           platform: string, norm: string -> string)
  {
    forall exe :: norm(exe) in cache ==>
      listing(exe).Lists? && cache[norm(exe)] == States(exe, listing(exe).encoders, None, platform, runner)
  }

  lemma RecallIsFresh(cache: Cache, exe: string, force: bool, listing: string -> Listing, runner: Runner,
                      platform: string, norm: string -> string)
    requires Truthful(cache, listing, runner, platform, norm) && listing(exe).Lists?
    ensures States(exe, listing(exe).encoders, Recalled(cache, norm(exe), force), platform, runner)
            == States(exe, listing(exe).encoders, None, platform, runner)
  {
  }

  lemma FreshIsTruthful(exe: string, listing: string -> Listing, runner: Runner,
                        platform: string, norm: string -> string)
    requires Stable(listing, runner, norm) && listing(exe).Lists?
    ensures Truthful(map[norm(exe) := States(exe, listing(exe).encoders, None, platform, runner)],
                     listing, runner, platform, norm)
  {
    forall other | norm(other) == norm(exe)
      ensures listing(other) == listing(exe)
      ensures States(other, listing(exe).encoders, None, platform, runner)
              == States(exe, listing(exe).encoders, None, platform, runner)
    {
      forall b
        ensures Probe(other, b, runner) == Probe(exe, b, runner)
      {
      }
    }
  }

  ghost predicate SameHost(rs: seq<Refresh>, listing: string -> Listing, runner: Runner) {
    forall i :: 0 <= i < |rs| ==> rs[i].host.listing == listing && rs[i].host.runner == runner
  }

  lemma {:induction false} CacheStaysTruthful(rs: seq<Refresh>, n: nat, listing: string -> Listing, runner: Runner,
                                              platform: string, norm: string -> string)
    requires n <= |rs| && Stable(listing, runner, norm) && SameHost(rs, listing, runner)
    ensures Truthful(CacheAt(rs, n, platform, norm), listing, runner, platform, norm)
  {
    if n > 0 {
      CacheStaysTruthful(rs, n - 1, listing, runner, platform, norm);
      var examined := Examined(rs[n - 1].configured, rs[n - 1].host);
      if examined.Some? {
        RecallIsFresh(CacheAt(rs, n - 1, platform, norm), examined.value, rs[n - 1].force, listing, runner,
                      platform, norm);
        FreshIsTruthful(examined.value, listing, runner, platform, norm);
      }
    }
  }

  /** For every sequence of forced and unforced refreshes over any executables, the
      cached detection returns what detection without a cache returns. */
  lemma CacheIsTransparent(rs: seq<Refresh>, n: nat, listing: string -> Listing, runner: Runner,
                           platform: string, norm: string -> string)
    requires n < |rs| && Stable(listing, runner, norm) && SameHost(rs, listing, runner)
    ensures ResultAt(rs, n, platform, norm)
            == Refreshed(rs[n].configured, rs[n].host, map[], true, platform, norm)
  {
    CacheStaysTruthful(rs, n, listing, runner, platform, norm);
    var examined := Examined(rs[n].configured, rs[n].host);
    if examined.Some? {
      RecallIsFresh(CacheAt(rs, n, platform, norm), examined.value, rs[n].force, listing, runner, platform, norm);
    }
  }

  /** The backends a detection launches probes for. */
  function Launched(encoders: set<string>, cached: Option<map<Backend, Capability>>,
                    platform: string): seq<Backend>
  {
    LaunchedAmong(BACKENDS, encoders, cached, platform)
  }

  /** The probes one candidate costs: none unless its encoders can be listed. */
  function LaunchedIn(exe: Option<string>, host: Host, cache: Cache, force: bool,
                      platform: string, norm: string -> string): seq<Backend>
  {
    match Listed(exe, host)
    case Some(e) => Launched(host.listing(e).encoders, Recalled(cache, norm(e), force), platform)
    case None => []
  }

  predicate Launches(b: Backend, encoders: set<string>, cached: Option<map<Backend, Capability>>, platform: string) {
    EncoderOf(b) in encoders && Supported(b, platform) && !(cached.Some? && b in cached.value)
  }

  function LaunchedAmong(bs: seq<Backend>, encoders: set<string>, cached: Option<map<Backend, Capability>>,
                         platform: string): seq<Backend>
  {
    if bs == [] then []
    else
      var n := |bs| - 1;
      var before := LaunchedAmong(bs[..n], encoders, cached, platform);
      if Launches(bs[n], encoders, cached, platform) then before + [bs[n]] else before
  }

  /** Probes are launched for the listed and supported backends that are not remembered. */
  lemma {:induction false} LaunchedIff(bs: seq<Backend>, encoders: set<string>,
                                       cached: Option<map<Backend, Capability>>, platform: string, b: Backend)
    ensures b in LaunchedAmong(bs, encoders, cached, platform) <==>
            b in bs && EncoderOf(b) in encoders && Supported(b, platform) && (cached.Some? ==> b !in cached.value)
  {
    if bs != [] {
      var n := |bs| - 1;
      LaunchedIff(bs[..n], encoders, cached, platform, b);
      assert bs == bs[..n] + [bs[n]];
    }
  }

  lemma LaunchedSnoc(bs: seq<Backend>, b: Backend, encoders: set<string>,
                     cached: Option<map<Backend, Capability>>, platform: string)
    ensures |LaunchedAmong(bs + [b], encoders, cached, platform)| ==
            |LaunchedAmong(bs, encoders, cached, platform)| + if Launches(b, encoders, cached, platform) then 1 else 0
  {
    assert (bs + [b])[..|bs|] == bs;
  }

  lemma {:induction false} NoneLaunched(bs: seq<Backend>, encoders: set<string>, cached: map<Backend, Capability>,
                                        platform: string)
    requires forall i :: 0 <= i < |bs| ==> bs[i] in cached
    ensures LaunchedAmong(bs, encoders, Some(cached), platform) == []
  {
    if bs != [] {
      assert bs[|bs| - 1] in cached;
      NoneLaunched(bs[..|bs| - 1], encoders, cached, platform);
    }
  }

  /** An unforced refresh that examines the path the previous one examined launches
      no probe, whatever its encoder list says now. */
  lemma RepeatLaunchesNothing(rs: seq<Refresh>, n: nat, platform: string, norm: string -> string)
    requires 0 < n < |rs| && !rs[n].force
    requires Examined(rs[n - 1].configured, rs[n - 1].host).Some?
    requires Examined(rs[n].configured, rs[n].host).Some?
    requires norm(Examined(rs[n].configured, rs[n].host).value)
             == norm(Examined(rs[n - 1].configured, rs[n - 1].host).value)
    ensures LaunchedIn(Chosen(rs[n].configured, rs[n].host), rs[n].host, CacheAt(rs, n, platform, norm), false,
                       platform, norm) == []
  {
    var exe := Examined(rs[n].configured, rs[n].host).value;
    var cached := CacheAt(rs, n, platform, norm)[norm(exe)];
    NoneLaunched(BACKENDS, rs[n].host.listing(exe).encoders, cached, platform);
  }

  /** A forced refresh does not look at what is remembered. */
  lemma ForcedIsFresh(configured: string, host: Host, cache: Cache, platform: string, norm: string -> string)
    ensures Refreshed(configured, host, cache, true, platform, norm)
            == Refreshed(configured, host, map[], false, platform, norm)
    ensures Examined(configured, host).Some? ==>
              CacheAfter(configured, host, cache, true, platform, norm)
              == CacheAfter(configured, host, map[], false, platform, norm)
  {
  }

  // ---------- where the cache is not transparent ----------

  /** The encoder list grew by a backend this platform supports. */
  predicate NewlyListed(before: set<string>, now: set<string>, platform: string) {
    exists b :: b in BACKENDS && Supported(b, platform) && EncoderOf(b) !in before && EncoderOf(b) in now
  }

  /** A remembered "not declared" is reused as well. So after an unforced repeat with
      another encoder list, the result is the cache-free one exactly when the list
      did not grow by a supported backend; otherwise it reports the new backend as
      not declared although it is listed. */
  lemma RepeatIsFreshIff(exe: string, before: set<string>, now: set<string>, platform: string, runner: Runner)
    ensures var remembered := States(exe, before, None, platform, runner);
            States(exe, now, Some(remembered), platform, runner) == States(exe, now, None, platform, runner)
            <==> !NewlyListed(before, now, platform)
  {
    var remembered := States(exe, before, None, platform, runner);
    var cached := States(exe, now, Some(remembered), platform, runner);
    var direct := States(exe, now, None, platform, runner);
    forall b | b in BACKENDS
      ensures cached[b] == direct[b] <==>
              !(Supported(b, platform) && EncoderOf(b) !in before && EncoderOf(b) in now)
    {
      ProbeDeclares(exe, b, PIXEL_FORMATS, BUDGET, runner);
    }
    assert cached.Keys == direct.Keys;
  }

  /** A host on which the configured executable lists one set of encoders. */
  function ListingOnly(encoders: set<string>, runner: Runner): Host {
    Host(exe => Lists(encoders, {}, {}), runner, exe => true, None, None, false)
  }

  /** Two refreshes of one executable that gains an encoder in between, say by an
      update in place: the second one says it is not declared, though it is listed. */
  lemma NewEncoderStaysHidden(exe: string, runner: Runner, norm: string -> string)
    requires exe != ""
    ensures var rs := [Refresh(exe, ListingOnly({}, runner), false),
                       Refresh(exe, ListingOnly({"h264_nvenc"}, runner), false)];
            var shown := ResultAt(rs, 1, "linux", norm);
            var direct := Refreshed(exe, rs[1].host, map[], true, "linux", norm);
            && "h264_nvenc" in shown.encoders && Nvenc in shown.gpuEncoders && Nvenc in direct.gpuEncoders
            && !shown.gpuEncoders[Nvenc].declared && direct.gpuEncoders[Nvenc].declared
  {
    ProbeDeclares(exe, Nvenc, PIXEL_FORMATS, BUDGET, runner);
    var before := CacheAfter(exe, ListingOnly({}, runner), map[], false, "linux", norm);
    assert before == map[norm(exe) := States(exe, {}, None, "linux", runner)];
    assert Nvenc in BACKENDS;
  }

  lemma {:induction false} ProbeDeclares(exe: string, b: Backend, formats: seq<string>, budget: real, runner: Runner)
    ensures ProbeFrom(exe, b, formats, budget, runner).declared
  {
    if formats != [] && budget > 0.0 {
      ProbeDeclares(exe, b, formats[1..], budget - runner(exe, b, formats[0], budget).elapsed, runner);
    }
  }

  // ---------- the module's state and functions ----------

  class FfmpegState {
    var cache: Cache
    var ffmpegBin: Option<string>
    var ffprobeBin: Option<string>
    var capabilities: Capabilities
    var manualPathError: Option<string>
    var source: string
    var probes: nat
    const platform: string
    const norm: string -> string

    constructor (platform: string, norm: string -> string)
      ensures cache == map[] && ffmpegBin == None && ffprobeBin == None
      ensures capabilities == Nothing("ffmpeg_not_found") && manualPathError == None && source == "none"
      ensures this.platform == platform && this.norm == norm && probes == 0
    {
      cache, ffmpegBin, ffprobeBin := map[], None, None;
      capabilities, manualPathError, source, probes := Nothing("ffmpeg_not_found"), None, "none", 0;
      this.platform := platform;
      this.norm := norm;
    }

    /** `_detect_gpu_encoders` */
    method DetectGpuEncoders(exe: string, encoders: set<string>, runner: Runner, force: bool, clock: real)
      returns (states: map<Backend, Capability>)
      modifies this`cache, this`probes
      ensures states == States(exe, encoders, Recalled(old(cache), norm(exe), force), platform, runner)
      ensures cache == map[norm(exe) := states]
      ensures probes == old(probes) +
              |Launched(encoders, Recalled(old(cache), norm(exe), force), platform)|
    {
      var key := norm(exe);
      var cached := if force || key !in cache then None else Some(cache[key]);
      states := map[];
      var i := 0;
      while i < |BACKENDS|
        invariant 0 <= i <= |BACKENDS|
        invariant states == StatesAmong(BACKENDS[..i], exe, encoders, cached, platform, runner)
        invariant probes == old(probes) + |LaunchedAmong(BACKENDS[..i], encoders, cached, platform)|
        invariant cache == old(cache)
      {
        var b := BACKENDS[i];
        assert BACKENDS[..i + 1] == BACKENDS[..i] + [b];
        StatesSnoc(BACKENDS[..i], b, exe, encoders, cached, platform, runner);
        LaunchedSnoc(BACKENDS[..i], b, encoders, cached, platform);
        var state := DetectOne(b, exe, encoders, cached, runner, clock);
        states := states[b := state];
        i := i + 1;
      }
      assert BACKENDS[..i] == BACKENDS;
      cache := map[];
      cache := cache[key := states];
    }

    /** One turn of the loop over the backends. */
    method DetectOne(b: Backend, exe: string, encoders: set<string>, cached: Option<map<Backend, Capability>>,
                     runner: Runner, clock: real) returns (state: Capability)
      modifies this`probes
      ensures state == StateOf(b, exe, encoders, cached, platform, runner)
      ensures probes == old(probes) + if Launches(b, encoders, cached, platform) then 1 else 0
    {
      if EncoderOf(b) !in encoders {
        state := NOT_DECLARED(b);
      } else if !Supported(b, platform) {
        state := Capability(b, true, false, Some("unsupported_platform"));
      } else if cached.Some? && b in cached.value {
        state := cached.value[b];
      } else {
        var finish;
        state, finish := ProbeGpuEncoder(exe, b, PIXEL_FORMATS, runner, clock);
        probes := probes + 1;
      }
    }

    /** `_detect_ffmpeg_capabilities` */
    method DetectCapabilities(exe: Option<string>, host: Host, force: bool, clock: real) returns (c: Capabilities)
      modifies this`cache, this`probes
      ensures probes == old(probes) + |LaunchedIn(exe, host, old(cache), force, platform, norm)|
      ensures c == CapabilitiesIn(exe, host, old(cache), force, platform, norm)
      ensures cache == CacheIn(exe, host, old(cache), force, platform, norm)
      ensures c.available <==> exe.Some? && exe.value != "" && host.listing(exe.value).Lists?
      ensures exe.None? || exe.value == "" ==> c.error == Some("ffmpeg_not_found")
      ensures exe.Some? && exe.value != "" && host.listing(exe.value).Unusable? ==>
                c.error == Some(host.listing(exe.value).error)
      ensures c.available || c.error.Some?
    {
      if exe.None? || exe.value == "" {
        return Nothing("ffmpeg_not_found");
      }
      var listing := host.listing(exe.value);
      if listing.Unusable? {
        return Nothing(listing.error);
      }
      var gpu := DetectGpuEncoders(exe.value, listing.encoders, host.runner, force, clock);
      c := Summary(listing, gpu);
    }

    /** `refresh_ffmpeg_capabilities`; the result says whether the circuit breakers
        are reset. */
    method RefreshCapabilities(manualPath: string, host: Host, force: bool, clock: real) returns (resets: bool)
      modifies this
      ensures probes == old(probes) +
              |LaunchedIn(Chosen(StripSpace(manualPath), host), host, old(cache), force, platform, norm)|
      ensures cache == CacheAfter(StripSpace(manualPath), host, old(cache), force, platform, norm)
      ensures capabilities == Refreshed(StripSpace(manualPath), host, old(cache), force, platform, norm)
      ensures ffmpegBin == if host.hideTools then None else Chosen(StripSpace(manualPath), host)
      ensures ffprobeBin == if host.hideTools then None else host.ffprobeOnPath
      ensures manualPathError == ManualError(StripSpace(manualPath), host)
      ensures host.hideTools ==> !capabilities.available && capabilities.error == Some("ffmpeg_not_found")
      ensures source == (if host.hideTools then "debug"
                         else if ManualUsable(StripSpace(manualPath), host) then "manual"
                         else if host.ffmpegOnPath.Some? && host.ffmpegOnPath.value != "" then "path" else "none")
      ensures resets <==> force || old(ffmpegBin) != ffmpegBin
    {
      var previous := ffmpegBin;
      var selected, found, chosenBy, error := SelectExecutable(StripSpace(manualPath), host, force, clock);
      var ffprobe := host.ffprobeOnPath;
      if host.hideTools {
        selected, ffprobe := None, None;
        found := Nothing("ffmpeg_not_found");
        chosenBy := "debug";
      }
      ffmpegBin, ffprobeBin, capabilities := selected, ffprobe, found;
      manualPathError, source := error, chosenBy;
      resets := force || previous != selected;
    }

    /** The configured path, or else what is found on the PATH. */
    method SelectExecutable(configured: string, host: Host, force: bool, clock: real)
      returns (selected: Option<string>, found: Capabilities, chosenBy: string, error: Option<string>)
      modifies this`cache, this`probes
      ensures selected == Chosen(configured, host) && error == ManualError(configured, host)
      ensures found == CapabilitiesIn(selected, host, old(cache), force, platform, norm)
      ensures cache == CacheIn(selected, host, old(cache), force, platform, norm)
      ensures probes == old(probes) + |LaunchedIn(selected, host, old(cache), force, platform, norm)|
      ensures chosenBy == if ManualUsable(configured, host) then "manual"
                          else if host.ffmpegOnPath.Some? && host.ffmpegOnPath.value != "" then "path" else "none"
    {
      selected, found, error := TryManual(configured, host, force, clock);
      if selected.None? {
        selected := host.ffmpegOnPath;
        found := DetectCapabilities(selected, host, force, clock);
        chosenBy := if selected.Some? && selected.value != "" then "path" else "none";
      } else {
        chosenBy := "manual";
      }
    }

    /** The attempt with the configured path; one that fails leaves the cache alone. */
    method TryManual(configured: string, host: Host, force: bool, clock: real)
      returns (selected: Option<string>, found: Capabilities, error: Option<string>)
      modifies this`cache, this`probes
      ensures selected == if ManualUsable(configured, host) then Some(configured) else None
      ensures selected.Some? ==> found == CapabilitiesIn(selected, host, old(cache), force, platform, norm)
      ensures selected.Some? ==> cache == CacheIn(selected, host, old(cache), force, platform, norm)
      ensures selected.None? ==> cache == old(cache) && probes == old(probes)
      ensures selected.Some? ==>
                probes == old(probes) + |LaunchedIn(Some(configured), host, old(cache), force, platform, norm)|
      ensures error == ManualError(configured, host)
    {
      selected, found, error := None, Nothing("ffmpeg_not_found"), None;
      if configured != "" {
        if !host.executable(configured) {
          error := Some("ffmpeg_manual_path_not_executable");
        } else {
          var candidate := DetectCapabilities(Some(configured), host, force, clock);
          if candidate.available {
            selected, found := Some(configured), candidate;
          } else {
            error := if candidate.error.Some? && candidate.error.value != "" then candidate.error
                     else Some("ffmpeg_manual_path_invalid");
          }
        }
      }
    }
  }
}
