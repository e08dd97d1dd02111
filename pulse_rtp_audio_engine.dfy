/** The Kotlin object `PulseRtpAudioEngine`: the `Params` class whose
    setters check their values, and the engine handle the singleton keeps.
    Each method is stated against its function in `AudioEngineSpec`. */
module PulseRtpAudioEngine {
  import opened Spec = AudioEngineSpec

  /** The object `Params`: fields updated through their checking setters. */
  class Params {
    var latencyOption: Int32
    var ip: string
    var port: Int32
    var mtu: Int32
    var maxLatency: Int32
    var numChannel: Int32
    var maskChannel: Int32

    function Value(): Settings
      reads this
    {
      Settings(latencyOption, ip, port, mtu, maxLatency, numChannel, maskChannel)
    }

    constructor ()
      ensures Value() == Defaults()
    {
      latencyOption, ip, port := 0, kDefaultIp, 4010;
      mtu, maxLatency, numChannel, maskChannel := 320, 300, 2, 0;
    }

    method SetLatencyOption(value: Int32)
      modifies this`latencyOption
      ensures Value() == Spec.SetLatencyOption(old(Value()), value)
    {
      if 0 <= value <= kLatencyOptions {
        latencyOption := value;
      }
    }

    method SetIp(value: string)
      modifies this`ip
      ensures Value() == Spec.SetIp(old(Value()), value)
    {
      if |value| > 0 {
        ip := value;
      }
    }

    method SetPort(value: Int32)
      modifies this`port
      ensures Value() == Spec.SetPort(old(Value()), value)
    {
      if 1 <= value <= 65535 {
        port := value;
      }
    }

    method SetMtu(value: Int32)
      modifies this`mtu
      ensures Value() == Spec.SetMtu(old(Value()), value)
    {
      if value > 0 {
        mtu := value;
      }
    }

    method SetMaxLatency(value: Int32)
      modifies this`maxLatency
      ensures Value() == Spec.SetMaxLatency(old(Value()), value)
    {
      if value > 0 {
        maxLatency := value;
      }
    }

    method SetNumChannel(value: Int32)
      modifies this`numChannel
      ensures Value() == Spec.SetNumChannel(old(Value()), value)
    {
      if value > 0 {
        numChannel := value;
      }
    }

    method FromSharedPref(p: StoredPrefs)
      modifies this
      ensures Value() == Spec.FromSharedPref(old(Value()), p)
    {
      SetIp(GetOrElse(p.ip, ""));
      SetPort(GetOrElse(p.port, 0));
      SetLatencyOption(GetOrElse(p.latency, 0));
      SetMtu(GetOrElse(p.mtu, 0));
      SetMaxLatency(GetOrElse(p.maxLatency, 0));
      SetNumChannel(GetOrElse(p.numChannel, 0));
      maskChannel := GetOrElse(p.maskChannel, 0);
    }

    method FromUri(u: UriParts)
      modifies this
      ensures Value() == Spec.FromUri(old(Value()), u)
    {
      SetIp(GetOrElse(u.host, ip));
      SetPort(if u.port > 0 then u.port else port);
      SetLatencyOption(GetOrElse(u.latency, 0));
      SetMtu(GetOrElse(u.mtu, 0));
      SetMaxLatency(GetOrElse(u.maxLatency, 0));
      SetNumChannel(GetOrElse(u.numChannel, 0));
      maskChannel := GetOrElse(u.maskChannel, 0);
    }
  }

  /** The singleton's engine handle, `mEngineHandle`, 0 for no engine. */
  class AudioEngine {
    var engineHandle: Int64

    constructor ()
      ensures engineHandle == 0
    {
      engineHandle := 0;
    }

    /** `create(params)`; `native` stands for what `native_createEngine`
        returns for the parameters, which it only gets to do when no engine
        exists. */
    method Create(params: Params, native: Int64) returns (ok: bool)
      modifies this`engineHandle
      ensures (engineHandle, ok) == Spec.Create(old(engineHandle), native)
    {
      if engineHandle == 0 {
        engineHandle := native;
      }
      ok := engineHandle != 0;
    }

    function IsPlaying(): (playing: bool)
      reads this
      ensures playing == Spec.IsPlaying(engineHandle)
    {
      engineHandle != 0
    }

    /** `destroy()`: returns the handle given to `native_deleteEngine`, if
        it was called. */
    method Destroy() returns (deleted: Option<Int64>)
      modifies this`engineHandle
      ensures engineHandle == Spec.Destroy(old(engineHandle))
      ensures deleted == if old(engineHandle) != 0 then Some(old(engineHandle)) else None
    {
      deleted := None;
      if engineHandle != 0 {
        deleted := Some(engineHandle);
      }
      engineHandle := 0;
    }
  }
}
