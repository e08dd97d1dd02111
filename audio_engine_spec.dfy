/** The Kotlin front of the player (PulseRtpAudioEngine.kt) as values and
    functions: the stream parameters, whose setters silently ignore values
    out of range, loading them from stored preferences or from a `udp://`
    URI, and the native engine handle behind `create`, `destroy` and
    `isPlaying`. Preference
    storage and URI text are not modelled: what they yield comes in as
    optional values, `None` standing for a missing key or an unparsable
    number. */
module AudioEngineSpec {
  /** Kotlin `Int` and `Long`. */
  newtype Int32 = x: int | -0x8000_0000 <= x < 0x8000_0000
  newtype Int64 = x: int | -0x8000_0000_0000_0000 <= x < 0x8000_0000_0000_0000

  datatype Option<T> = None | Some(value: T)

  function GetOrElse<T>(o: Option<T>, fallback: T): (r: T)
    ensures o.Some? ==> r == o.value
    ensures o.None? ==> r == fallback
  {
    match o
    case Some(v) => v
    case None => fallback
  }

  /** `LATENCY_OPTIONS.size`: three named latency modes. */
  const kLatencyOptions: Int32 := 3

  const kDefaultIp: string := "224.0.0.56"

  /** What each setter lets through. The latency range is `0..size`
      inclusive, so it admits one index past the last named option. */
  predicate AcceptsLatency(v: Int32) { 0 <= v <= kLatencyOptions }
  predicate AcceptsIp(ip: string) { |ip| > 0 }
  predicate AcceptsPort(v: Int32) { 1 <= v <= 65535 }
  predicate AcceptsPositive(v: Int32) { v > 0 }

  /** The fields of `Params`, as one value. */
  datatype Settings = Settings(latencyOption: Int32, ip: string, port: Int32, mtu: Int32,
                               maxLatency: Int32, numChannel: Int32, maskChannel: Int32)

  /** Every field holds a value its setter would accept (`maskChannel` has
      no setter check). */
  predicate Admissible(s: Settings)
  {
    && AcceptsLatency(s.latencyOption) && AcceptsIp(s.ip) && AcceptsPort(s.port)
    && AcceptsPositive(s.mtu) && AcceptsPositive(s.maxLatency) && AcceptsPositive(s.numChannel)
  }

  function Defaults(): (s: Settings)
    ensures Admissible(s)
  {
    Settings(0, kDefaultIp, 4010, 320, 300, 2, 0)
  }

  /** The setters, on the value of the fields: only the setter's own field
      can change; an accepted value replaces it, any other leaves the
      settings as they were. */
  function SetLatencyOption(s: Settings, v: Int32): (r: Settings)
    ensures r == s.(latencyOption := r.latencyOption)
    ensures AcceptsLatency(v) ==> r.latencyOption == v
    ensures !AcceptsLatency(v) ==> r == s
  {
    if AcceptsLatency(v) then s.(latencyOption := v) else s
  }

  function SetIp(s: Settings, v: string): (r: Settings)
    ensures r == s.(ip := r.ip)
    ensures AcceptsIp(v) ==> r.ip == v
    ensures !AcceptsIp(v) ==> r == s
  {
    if AcceptsIp(v) then s.(ip := v) else s
  }

  function SetPort(s: Settings, v: Int32): (r: Settings)
    ensures r == s.(port := r.port)
    ensures AcceptsPort(v) ==> r.port == v
    ensures !AcceptsPort(v) ==> r == s
  {
    if AcceptsPort(v) then s.(port := v) else s
  }

  function SetMtu(s: Settings, v: Int32): (r: Settings)
    ensures r == s.(mtu := r.mtu)
    ensures AcceptsPositive(v) ==> r.mtu == v
    ensures !AcceptsPositive(v) ==> r == s
  {
    if AcceptsPositive(v) then s.(mtu := v) else s
  }

  function SetMaxLatency(s: Settings, v: Int32): (r: Settings)
    ensures r == s.(maxLatency := r.maxLatency)
    ensures AcceptsPositive(v) ==> r.maxLatency == v
    ensures !AcceptsPositive(v) ==> r == s
  {
    if AcceptsPositive(v) then s.(maxLatency := v) else s
  }

  function SetNumChannel(s: Settings, v: Int32): (r: Settings)
    ensures r == s.(numChannel := r.numChannel)
    ensures AcceptsPositive(v) ==> r.numChannel == v
    ensures !AcceptsPositive(v) ==> r == s
  {
    if AcceptsPositive(v) then s.(numChannel := v) else s
  }

  /** No setter can make admissible settings inadmissible. */
  lemma SettersKeepAdmissible(s: Settings, n: Int32, ip: string)
    requires Admissible(s)
    ensures Admissible(SetLatencyOption(s, n)) && Admissible(SetIp(s, ip)) && Admissible(SetPort(s, n))
    ensures Admissible(SetMtu(s, n)) && Admissible(SetMaxLatency(s, n)) && Admissible(SetNumChannel(s, n))
    ensures Admissible(s.(maskChannel := n))
  {
  }

  /** Setting a field twice to the same value is setting it once. */
  lemma SettersIdempotent(s: Settings, n: Int32, ip: string)
    ensures SetLatencyOption(SetLatencyOption(s, n), n) == SetLatencyOption(s, n)
    ensures SetIp(SetIp(s, ip), ip) == SetIp(s, ip)
    ensures SetPort(SetPort(s, n), n) == SetPort(s, n)
    ensures SetMtu(SetMtu(s, n), n) == SetMtu(s, n)
    ensures SetMaxLatency(SetMaxLatency(s, n), n) == SetMaxLatency(s, n)
    ensures SetNumChannel(SetNumChannel(s, n), n) == SetNumChannel(s, n)
  {
  }

  /** What the stored preferences hold for each key; `None` is a key that
      was never stored. */
  datatype StoredPrefs = StoredPrefs(latency: Option<Int32>, ip: Option<string>, port: Option<Int32>,
                                     mtu: Option<Int32>, maxLatency: Option<Int32>,
                                     numChannel: Option<Int32>, maskChannel: Option<Int32>)

  /** `fromSharedPref`: each stored value, or `""`/`0` for a missing key,
      goes through its setter, in the order of the code. Admissible settings
      stay admissible, every stored value its setter accepts is taken, and
      the channel mask is taken unchecked. */
  function FromSharedPref(s: Settings, p: StoredPrefs): (r: Settings)
    ensures Admissible(s) ==> Admissible(r)
    ensures p.ip.Some? && AcceptsIp(p.ip.value) ==> r.ip == p.ip.value
    ensures p.port.Some? && AcceptsPort(p.port.value) ==> r.port == p.port.value
    ensures p.latency.Some? && AcceptsLatency(p.latency.value) ==> r.latencyOption == p.latency.value
    ensures p.mtu.Some? && AcceptsPositive(p.mtu.value) ==> r.mtu == p.mtu.value
    ensures p.maxLatency.Some? && AcceptsPositive(p.maxLatency.value) ==> r.maxLatency == p.maxLatency.value
    ensures p.numChannel.Some? && AcceptsPositive(p.numChannel.value) ==> r.numChannel == p.numChannel.value
    ensures r.maskChannel == GetOrElse(p.maskChannel, 0)
  {
    var s1 := SetIp(s, GetOrElse(p.ip, ""));
    var s2 := SetPort(s1, GetOrElse(p.port, 0));
    var s3 := SetLatencyOption(s2, GetOrElse(p.latency, 0));
    var s4 := SetMtu(s3, GetOrElse(p.mtu, 0));
    var s5 := SetMaxLatency(s4, GetOrElse(p.maxLatency, 0));
    var s6 := SetNumChannel(s5, GetOrElse(p.numChannel, 0));
    s6.(maskChannel := GetOrElse(p.maskChannel, 0))
  }

  /** Field by field: a stored value the setter accepts is taken; a
      missing or rejected one keeps the old value, except that a missing
      latency option and a missing channel mask become 0. */
  lemma FromSharedPrefSpec(s: Settings, p: StoredPrefs)
    ensures var r := FromSharedPref(s, p);
            && r.ip == (if p.ip.Some? && AcceptsIp(p.ip.value) then p.ip.value else s.ip)
            && r.port == (if p.port.Some? && AcceptsPort(p.port.value) then p.port.value else s.port)
            && r.latencyOption
               == (if p.latency.None? then 0
                   else if AcceptsLatency(p.latency.value) then p.latency.value else s.latencyOption)
            && r.mtu == (if p.mtu.Some? && AcceptsPositive(p.mtu.value) then p.mtu.value else s.mtu)
            && r.maxLatency
               == (if p.maxLatency.Some? && AcceptsPositive(p.maxLatency.value) then p.maxLatency.value
                   else s.maxLatency)
            && r.numChannel
               == (if p.numChannel.Some? && AcceptsPositive(p.numChannel.value) then p.numChannel.value
                   else s.numChannel)
            && r.maskChannel == GetOrElse(p.maskChannel, 0)
  {
  }

  /** Loading from preferences never makes admissible settings
      inadmissible, and loading the same preferences again changes
      nothing. */
  lemma FromSharedPrefStable(s: Settings, p: StoredPrefs)
    ensures Admissible(s) ==> Admissible(FromSharedPref(s, p))
    ensures FromSharedPref(FromSharedPref(s, p), p) == FromSharedPref(s, p)
  {
    FromSharedPrefSpec(s, p);
    FromSharedPrefSpec(FromSharedPref(s, p), p);
  }

  /** What `saveToSharedPref` stores: every field under its key. */
  function SavedPrefs(s: Settings): (p: StoredPrefs)
    ensures p.ip == Some(s.ip) && p.port == Some(s.port) && p.latency == Some(s.latencyOption)
    ensures p.mtu == Some(s.mtu) && p.maxLatency == Some(s.maxLatency)
    ensures p.numChannel == Some(s.numChannel) && p.maskChannel == Some(s.maskChannel)
  {
    StoredPrefs(Some(s.latencyOption), Some(s.ip), Some(s.port), Some(s.mtu),
                Some(s.maxLatency), Some(s.numChannel), Some(s.maskChannel))
  }

  /** Saving admissible settings and loading them back, over any settings,
      restores them exactly. */
  lemma SaveThenLoad(s: Settings, t: Settings)
    requires Admissible(s)
    ensures FromSharedPref(t, SavedPrefs(s)) == s
  {
    FromSharedPrefSpec(t, SavedPrefs(s));
  }

  /** With nothing stored, loading keeps every field but the latency option
      and the channel mask, which become 0. */
  lemma EmptyPrefsKeepSettings(s: Settings)
    ensures FromSharedPref(s, StoredPrefs(None, None, None, None, None, None, None))
            == s.(latencyOption := 0, maskChannel := 0)
  {
    FromSharedPrefSpec(s, StoredPrefs(None, None, None, None, None, None, None));
  }

  /** The parts of a parsed `udp://ip:port/?...` URI the code reads: the
      host, the port (`-1` when the URI has none) and each query parameter
      parsed as an `Int`. */
  datatype UriParts = UriParts(host: Option<string>, port: Int32, latency: Option<Int32>,
                               mtu: Option<Int32>, maxLatency: Option<Int32>,
                               numChannel: Option<Int32>, maskChannel: Option<Int32>)

  /** `fromUri`: a missing host keeps the ip and a port of at most 0 keeps
      the port; every missing query value is 0 and goes through its
      setter. Admissible settings stay admissible, every value its setter
      accepts is taken, and the channel mask is taken unchecked. */
  function FromUri(s: Settings, u: UriParts): (r: Settings)
    ensures Admissible(s) ==> Admissible(r)
    ensures u.host.Some? && AcceptsIp(u.host.value) ==> r.ip == u.host.value
    ensures AcceptsPort(u.port) ==> r.port == u.port
    ensures u.latency.Some? && AcceptsLatency(u.latency.value) ==> r.latencyOption == u.latency.value
    ensures u.mtu.Some? && AcceptsPositive(u.mtu.value) ==> r.mtu == u.mtu.value
    ensures u.maxLatency.Some? && AcceptsPositive(u.maxLatency.value) ==> r.maxLatency == u.maxLatency.value
    ensures u.numChannel.Some? && AcceptsPositive(u.numChannel.value) ==> r.numChannel == u.numChannel.value
    ensures r.maskChannel == GetOrElse(u.maskChannel, 0)
  {
    var s1 := SetIp(s, GetOrElse(u.host, s.ip));
    var s2 := SetPort(s1, if u.port > 0 then u.port else s1.port);
    var s3 := SetLatencyOption(s2, GetOrElse(u.latency, 0));
    var s4 := SetMtu(s3, GetOrElse(u.mtu, 0));
    var s5 := SetMaxLatency(s4, GetOrElse(u.maxLatency, 0));
    var s6 := SetNumChannel(s5, GetOrElse(u.numChannel, 0));
    s6.(maskChannel := GetOrElse(u.maskChannel, 0))
  }

  /** Field by field: a URI value the setter accepts is taken and anything
      else keeps the old value, except that a missing latency option and a
      missing channel mask become 0. */
  lemma FromUriSpec(s: Settings, u: UriParts)
    ensures var r := FromUri(s, u);
            && r.ip == (if u.host.Some? && AcceptsIp(u.host.value) then u.host.value else s.ip)
            && r.port == (if AcceptsPort(u.port) then u.port else s.port)
            && r.latencyOption
               == (if u.latency.None? then 0
                   else if AcceptsLatency(u.latency.value) then u.latency.value else s.latencyOption)
            && r.mtu == (if u.mtu.Some? && AcceptsPositive(u.mtu.value) then u.mtu.value else s.mtu)
            && r.maxLatency
               == (if u.maxLatency.Some? && AcceptsPositive(u.maxLatency.value) then u.maxLatency.value
                   else s.maxLatency)
            && r.numChannel
               == (if u.numChannel.Some? && AcceptsPositive(u.numChannel.value) then u.numChannel.value
                   else s.numChannel)
            && r.maskChannel == GetOrElse(u.maskChannel, 0)
  {
  }

  /** Reading a URI never makes admissible settings inadmissible, and
      reading the same URI again changes nothing. */
  lemma FromUriStable(s: Settings, u: UriParts)
    ensures Admissible(s) ==> Admissible(FromUri(s, u))
    ensures FromUri(FromUri(s, u), u) == FromUri(s, u)
  {
    FromUriSpec(s, u);
    FromUriSpec(FromUri(s, u), u);
  }

  /** The parts `toUri` writes: host and port from the authority, every
      other field as a query parameter. */
  function ToUri(s: Settings): (u: UriParts)
    ensures u.host == Some(s.ip) && u.port == s.port
  {
    UriParts(Some(s.ip), s.port, Some(s.latencyOption), Some(s.mtu),
             Some(s.maxLatency), Some(s.numChannel), Some(s.maskChannel))
  }

  /** A URI built from admissible settings carries them whole: reading it
      back over any settings restores them. */
  lemma ToUriThenFromUri(s: Settings, t: Settings)
    requires Admissible(s)
    ensures FromUri(t, ToUri(s)) == s
  {
    FromUriSpec(t, ToUri(s));
  }

  /** `create` on the handle: the native constructor, whose result is
      `native`, runs only when there is no engine yet; the result says
      whether an engine now exists, and a running engine is kept. */
  function Create(handle: Int64, native: Int64): (res: (Int64, bool))
    ensures res.1 <==> res.0 != 0
    ensures handle != 0 ==> res == (handle, true)
  {
    if handle == 0 then (native, native != 0) else (handle, true)
  }

  /** `isPlaying`: an engine exists. A playing handle is kept by `create`;
      from a handle that is not playing, `create` takes the native one. */
  predicate IsPlaying(handle: Int64)
    ensures IsPlaying(handle) ==> forall n: Int64 :: Create(handle, n) == (handle, true)
    ensures !IsPlaying(handle) ==> forall n: Int64 :: Create(handle, n).0 == n
  {
    handle != 0
  }

  /** `destroy` on the handle: the engine, if any, is deleted, and nothing
      plays afterwards. */
  function Destroy(handle: Int64): (h: Int64)
    ensures !IsPlaying(h)
  {
    0
  }

  /** `create` reports exactly whether the engine is playing afterwards; a
      running engine is kept, whatever the native constructor would have
      returned, and from no engine the native handle is taken as it is. */
  lemma CreateSpec(handle: Int64, native: Int64)
    ensures var (h, ok) := Create(handle, native);
            && ok == IsPlaying(h)
            && (IsPlaying(handle) ==> h == handle)
            && (!IsPlaying(handle) ==> h == native)
  {
  }

  /** After `destroy` nothing plays, and the next `create` calls the native
      constructor again; a second `create` is a no-op once the first one
      succeeded. */
  lemma Lifecycle(handle: Int64, n1: Int64, n2: Int64)
    ensures !IsPlaying(Destroy(handle))
    ensures Create(Destroy(handle), n1).0 == n1
    ensures Create(handle, n1).1 ==> Create(Create(handle, n1).0, n2) == Create(handle, n1)
  {
  }
}
