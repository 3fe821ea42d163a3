/** The deterministic helpers of the system-audio page (system-audio-demo/js/main.js):
    the recorder MIME-type search, the connection counter of `TrackedAudioContext`,
    and the `<select>` handling of the audio-output device list. */
module SystemAudio {
  import opened Wrappers

  // ---- getSupportedMimeType ----

  /** The recorder formats in order of preference. */
  const MimeTypes: seq<string> := [
    "audio/webm; codecs=pcm",
    "audio/webm; codecs=opus",
    "audio/webm",
    "audio/ogg; codecs=opus",
    "audio/ogg"
  ]

  /** `getSupportedMimeType()`: the first entry of `MimeTypes` that `isTypeSupported`
      (the browser's `MediaRecorder.isTypeSupported`) accepts, or None (`null`). */
  method GetSupportedMimeType(isTypeSupported: string -> bool) returns (mimeType: Option<string>)
    ensures mimeType.None? <==> forall k :: 0 <= k < |MimeTypes| ==> !isTypeSupported(MimeTypes[k])
    ensures mimeType.Some? ==>
      exists k :: 0 <= k < |MimeTypes| && MimeTypes[k] == mimeType.value &&
        isTypeSupported(MimeTypes[k]) && forall m :: 0 <= m < k ==> !isTypeSupported(MimeTypes[m])
  {
    for k := 0 to |MimeTypes|
      invariant forall m :: 0 <= m < k ==> !isTypeSupported(MimeTypes[m])
    {
      if isTypeSupported(MimeTypes[k]) {
        return Some(MimeTypes[k]);
      }
    }
    return None;
  }

  // ---- TrackedAudioContext ----

  /** The counter after a disconnect: one less, floored at zero (`Math.max(0, n - 1)`). */
  function AfterDisconnect(n: int): (r: int)
    ensures r >= 0
    ensures n >= 1 ==> r == n - 1
    ensures n <= 1 ==> r == 0
  {
    if n - 1 < 0 then 0 else n - 1
  }

  /** The audio context's bookkeeping of active connections; the audio graph calls
      (`connect`, `disconnect`) themselves are left to the browser. */
  class TrackedAudioContext {
    var activeConnections: int

    ghost predicate Valid()
      reads this
    {
      activeConnections >= 0
    }

    constructor ()
      ensures Valid() && activeConnections == 0
    {
      activeConnections := 0;
    }

    method TrackConnect()
      requires Valid()
      modifies this
      ensures Valid() && activeConnections == old(activeConnections) + 1
    {
      activeConnections := activeConnections + 1;
    }

    method TrackDisconnect()
      requires Valid()
      modifies this
      ensures Valid() && activeConnections == AfterDisconnect(old(activeConnections))
    {
      activeConnections := AfterDisconnect(activeConnections);
    }
  }

  /** The counter after a sequence of calls, true for `trackConnect`, false for
      `trackDisconnect`. */
  function Replay(n: int, calls: seq<bool>): int
    decreases calls
  {
    if calls == [] then n
    else Replay(if calls[0] then n + 1 else AfterDisconnect(n), calls[1..])
  }

  function Connects(calls: seq<bool>): nat
  {
    if calls == [] then 0 else (if calls[0] then 1 else 0) + Connects(calls[1..])
  }

  function Disconnects(calls: seq<bool>): nat
  {
    if calls == [] then 0 else (if calls[0] then 0 else 1) + Disconnects(calls[1..])
  }

  /** From a non-negative start the counter never goes below zero, and while no
      prefix of the calls disconnects more than was connected before it, the counter
      is exactly the start plus connects minus disconnects. */
  lemma {:induction false} ReplayCounts(n: int, calls: seq<bool>)
    requires n >= 0
    ensures Replay(n, calls) >= 0
    ensures (forall p :: 0 <= p <= |calls| ==> Disconnects(calls[..p]) <= n + Connects(calls[..p])) ==>
      Replay(n, calls) == n + Connects(calls) - Disconnects(calls)
    decreases calls
  {
    if calls != [] {
      var n' := if calls[0] then n + 1 else AfterDisconnect(n);
      ReplayCounts(n', calls[1..]);
      if forall p :: 0 <= p <= |calls| ==> Disconnects(calls[..p]) <= n + Connects(calls[..p]) {
        var first := calls[..1];
        assert first == [calls[0]] && first[1..] == [];
        assert Disconnects(first) <= n + Connects(first);
        assert Disconnects(first) == (if calls[0] then 0 else 1) + Disconnects(first[1..]);
        assert Connects(first) == (if calls[0] then 1 else 0) + Connects(first[1..]);
        assert !calls[0] ==> n >= 1 && n' == n - 1;
        forall p | 0 <= p <= |calls[1..]|
          ensures Disconnects(calls[1..][..p]) <= n' + Connects(calls[1..][..p])
        {
          var pre := calls[..p + 1];
          assert pre[0] == calls[0] && pre[1..] == calls[1..][..p];
          assert Disconnects(pre) <= n + Connects(pre);
        }
        assert Replay(n, calls) == Replay(n', calls[1..]);
      }
    }
  }

  // ---- the audio-output <select> ----

  /** One `<option>`: its value (the device id) and its label (`updateDevices` sets
      `label` and `text` alike; `label` is a reserved word here). */
  datatype SelectOption = SelectOption(value: string, caption: string)

  /** One `MediaDeviceInfo` as `enumerateDevices()` returns it. */
  datatype MediaDeviceInfo = MediaDeviceInfo(deviceId: string, kind: string, caption: string)

  /** Index of the first option whose value is `v`, or -1. */
  function FirstIndexOf(options: seq<SelectOption>, v: string): (k: int)
    ensures -1 <= k < |options|
    ensures k == -1 <==> forall m :: 0 <= m < |options| ==> options[m].value != v
    ensures k >= 0 ==> options[k].value == v && forall m :: 0 <= m < k ==> options[m].value != v
  {
    if options == [] then -1
    else if options[0].value == v then 0
    else
      var k := FirstIndexOf(options[1..], v);
      if k == -1 then -1 else k + 1
  }

  predicate HasValue(options: seq<SelectOption>, v: string) {
    exists m :: 0 <= m < |options| && options[m].value == v
  }

  /** A single-choice `<select>` element: its options and `selectedIndex` (-1 for none). */
  class Select {
    var options: seq<SelectOption>
    var selectedIndex: int

    ghost predicate Valid()
      reads this
    {
      -1 <= selectedIndex < |options|
    }

    /** An empty `<select>`. */
    constructor ()
      ensures HasSelection() && options == [] && selectedIndex == -1
    {
      options := [];
      selectedIndex := -1;
    }

    /** The page's selects always have an option selected when they have options. */
    ghost predicate HasSelection()
      reads this
    {
      Valid() && (|options| > 0 ==> selectedIndex >= 0)
    }

    /** `select.value`: the value of the selected option, or "" when none is selected. */
    function Value(): (v: string)
      reads this
      ensures 0 <= selectedIndex < |options| ==> v == options[selectedIndex].value
      ensures v == "" || HasValue(options, v)
    {
      if 0 <= selectedIndex < |options| then options[selectedIndex].value else ""
    }

    /** Assigning `select.value = v` selects the first option whose value is `v`,
        and no option if there is none. */
    method SetValue(v: string)
      requires Valid()
      modifies this
      ensures Valid() && options == old(options)
      ensures selectedIndex == FirstIndexOf(options, v)
      ensures HasValue(options, v) ==> Value() == v
      ensures !HasValue(options, v) ==> Value() == ""
    {
      selectedIndex := FirstIndexOf(options, v);
    }

    /** `updateDevices`: clear the list (`innerHTML = ''`) and append one option per
        device; the first appended option becomes the selected one. */
    method UpdateDevices(devices: seq<MediaDeviceInfo>)
      modifies this
      ensures HasSelection()
      ensures |options| == |devices|
      ensures forall k :: 0 <= k < |devices| ==>
        options[k] == SelectOption(devices[k].deviceId, devices[k].caption)
      ensures selectedIndex == if devices == [] then -1 else 0
    {
      options := seq(|devices|, k requires 0 <= k < |devices| =>
        SelectOption(devices[k].deviceId, devices[k].caption));
      selectedIndex := if devices == [] then -1 else 0;
    }
  }

  /** `getSelectedDevice(select)`: "" for an empty list, else the label of the selected
      option; None stands for the TypeError of reading `.label` when no option is selected. */
  function GetSelectedDevice(select: Select): (deviceLabel: Option<string>)
    reads select
    ensures select.options == [] ==> deviceLabel == Some("")
    ensures select.HasSelection() && select.options != [] ==>
      deviceLabel == Some(select.options[select.selectedIndex].caption)
    ensures select.HasSelection() ==> deviceLabel.Some?
    ensures deviceLabel.None? <==> select.options != [] && !(0 <= select.selectedIndex < |select.options|)
  {
    var options := select.options;
    if |options| == 0 then Some("")
    else if 0 <= select.selectedIndex < |options| then Some(options[select.selectedIndex].caption)
    else None
  }

  /** The selector loop of `enumerateDevices`: each select whose new options hold its
      previously selected value gets that value back; the others are not touched. */
  method RestoreSelections(selectors: seq<Select>, selectedValues: seq<string>)
    requires |selectedValues| == |selectors|
    requires forall k, m :: 0 <= k < m < |selectors| ==> selectors[k] != selectors[m]
    requires forall k :: 0 <= k < |selectors| ==> selectors[k].Valid()
    modifies set k | 0 <= k < |selectors| :: selectors[k]
    ensures forall k :: 0 <= k < |selectors| ==>
      selectors[k].Valid() && selectors[k].options == old(selectors[k].options) &&
      selectors[k].selectedIndex ==
        if HasValue(selectors[k].options, selectedValues[k])
        then FirstIndexOf(selectors[k].options, selectedValues[k])
        else old(selectors[k].selectedIndex)
  {
    for k := 0 to |selectors|
      invariant forall m :: 0 <= m < |selectors| ==>
        selectors[m].Valid() && selectors[m].options == old(selectors[m].options)
      invariant forall m :: 0 <= m < k ==>
        selectors[m].selectedIndex ==
          if HasValue(selectors[m].options, selectedValues[m])
          then FirstIndexOf(selectors[m].options, selectedValues[m])
          else old(selectors[m].selectedIndex)
      invariant forall m :: k <= m < |selectors| ==>
        selectors[m].selectedIndex == old(selectors[m].selectedIndex)
    {
      var select := selectors[k];
      if exists m :: 0 <= m < |select.options| && select.options[m].value == selectedValues[k] {
        select.SetValue(selectedValues[k]);
      }
    }
  }

  /** The page state that `enumerateDevices` changes. */
  class AudioOutputPage {
    const audioOutputSelect: Select
    var hasSpeaker: bool

    ghost predicate Valid()
      reads this, audioOutputSelect
    {
      audioOutputSelect.HasSelection()
    }

    constructor ()
      ensures Valid() && fresh(audioOutputSelect)
      ensures audioOutputSelect.options == [] && !hasSpeaker
    {
      audioOutputSelect := new Select();
      hasSpeaker := false;
    }

    /** `enumerateDevices()`: `devices` is what the browser's enumeration delivers,
        None when it fails (the error is logged and nothing else changes). On success
        the list is rebuilt from the audio outputs and the old selection is restored
        exactly when some new option carries its value. */
    method EnumerateDevices(devices: Option<seq<MediaDeviceInfo>>)
      requires Valid()
      modifies this, audioOutputSelect
      ensures Valid()
      ensures devices.None? ==>
        && !hasSpeaker
        && audioOutputSelect.options == old(audioOutputSelect.options)
        && audioOutputSelect.selectedIndex == old(audioOutputSelect.selectedIndex)
      ensures devices.Some? ==>
        var outputs := AudioOutputs(devices.value);
        var previous := old(audioOutputSelect.Value());
        && hasSpeaker == (|outputs| > 0)
        && |audioOutputSelect.options| == |outputs|
        && (forall k :: 0 <= k < |outputs| ==>
              audioOutputSelect.options[k] == SelectOption(outputs[k].deviceId, outputs[k].caption))
        && (HasValue(audioOutputSelect.options, previous) ==>
              audioOutputSelect.Value() == previous &&
              audioOutputSelect.selectedIndex == FirstIndexOf(audioOutputSelect.options, previous))
        && (!HasValue(audioOutputSelect.options, previous) ==>
              audioOutputSelect.selectedIndex == if outputs == [] then -1 else 0)
    {
      hasSpeaker := false;
      var selectors := [audioOutputSelect];
      var selectedValues := [audioOutputSelect.Value()];
      if devices.Some? {
        var outputs := AudioOutputs(devices.value);
        hasSpeaker := |outputs| > 0;
        audioOutputSelect.UpdateDevices(outputs);
        RestoreSelections(selectors, selectedValues);
        assert selectors[0] == audioOutputSelect;
      }
    }
  }

  /** `devices.filter(device => device.kind === 'audiooutput')` */
  function AudioOutputs(devices: seq<MediaDeviceInfo>): (outputs: seq<MediaDeviceInfo>)
    ensures forall k :: 0 <= k < |outputs| ==> outputs[k].kind == "audiooutput"
    ensures forall k :: 0 <= k < |outputs| ==> outputs[k] in devices
    ensures forall d :: d in devices && d.kind == "audiooutput" ==> d in outputs
    ensures |outputs| <= |devices|
  {
    if devices == [] then []
    else (if devices[0].kind == "audiooutput" then [devices[0]] else []) + AudioOutputs(devices[1..])
  }

  /** The filter keeps a device exactly when it is an audio output. */
  lemma AudioOutputsSingle(d: MediaDeviceInfo)
    ensures AudioOutputs([d]) == if d.kind == "audiooutput" then [d] else []
  {
    assert [d][1..] == [];
  }

  /** Filtering keeps the enumeration order: the outputs of a concatenation are the
      outputs of the first part followed by those of the second. */
  lemma {:induction false} AudioOutputsAppend(a: seq<MediaDeviceInfo>, b: seq<MediaDeviceInfo>)
    ensures AudioOutputs(a + b) == AudioOutputs(a) + AudioOutputs(b)
    decreases |a|
  {
    if a == [] {
      assert a + b == b;
    } else {
      assert (a + b)[0] == a[0];
      assert (a + b)[1..] == a[1..] + b;
      AudioOutputsAppend(a[1..], b);
    }
  }
}
