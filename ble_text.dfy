/** The human-readable snapshot of the registry (`ble_get_devices_text`)
    and the bounded `snprintf` it writes with. */
module BleText {
  import opened Common
  import opened BleRegistry

  const NUL := '\0'

  /** What the snapshot shows while no device has been seen. */
  const ScanningText := "Scanning..."

  /** `"%s (%ddBm)\n"` for a claimed slot; "Unknown" stands for an empty
      name. Unclaimed slots contribute nothing. */
  function DeviceLine(d: Device): string
  {
    if !d.used then ""
    else (if d.name == [] then "Unknown" else d.name) + " (" + IntToDecimal(d.rssi) + "dBm)\n"
  }

  /** The lines of the slots in `s`, in slot order. */
  function Lines(s: seq<Device>): string
    decreases |s|
  {
    if s == [] then "" else Lines(s[..|s| - 1]) + DeviceLine(s[|s| - 1])
  }

  /** `"Found: %d\n"`. */
  function Header(count: int): string
  {
    "Found: " + IntToDecimal(count) + "\n"
  }

  /** The whole snapshot before it is cut to the caller's buffer. */
  function DevicesText(s: seq<Device>, count: int): string
  {
    if count == 0 then ScanningText else Header(count) + Lines(s)
  }

  /** Lines distribute over concatenation of slot ranges. */
  lemma {:induction false} LinesAppend(a: seq<Device>, b: seq<Device>)
    ensures Lines(a + b) == Lines(a) + Lines(b)
    decreases |b|
  {
    if b == [] {
      assert a + b == a;
    } else {
      assert (a + b)[..|a + b| - 1] == a + b[..|b| - 1];
      LinesAppend(a, b[..|b| - 1]);
    }
  }

  /** Every claimed slot's line stands in the snapshot at its slot's place,
      between the lines of the earlier and of the later slots. */
  lemma {:induction false} SlotLine(s: seq<Device>, i: nat)
    requires i < |s|
    ensures Lines(s) == Lines(s[..i]) + DeviceLine(s[i]) + Lines(s[i + 1..])
  {
    var head := s[..i + 1];
    assert head[..|head| - 1] == s[..i] && head[|head| - 1] == s[i];
    assert Lines(head) == Lines(s[..i]) + DeviceLine(s[i]);
    assert head + s[i + 1..] == s;
    LinesAppend(head, s[i + 1..]);
  }

  /** With no claimed slot the snapshot is the scanning text; otherwise it
      opens with the count and holds exactly one line per slot. */
  lemma DevicesTextShape(s: seq<Device>)
    ensures UsedCount(s) == 0 ==> DevicesText(s, UsedCount(s)) == ScanningText
    ensures UsedCount(s) > 0 ==>
      DevicesText(s, UsedCount(s)) == Header(UsedCount(s)) + Lines(s) &&
      DevicesText(s, UsedCount(s))[..|Header(UsedCount(s))|] == Header(UsedCount(s))
  {
  }

  /** What `snprintf(out + pos, |before| - pos, "%s", text)` does to a buffer
      that held `before`: the first characters of `text` that fit before the
      last cell, then a terminator; nothing else is touched. */
  ghost predicate SnprintfEffect(before: seq<char>, after: seq<char>, pos: nat, text: string)
  {
    pos < |before| == |after| &&
    var k := |Prefix(text, |before| - pos - 1)|;
    after[..pos] == before[..pos] &&
    after[pos..pos + k] == Prefix(text, |before| - pos - 1) &&
    after[pos + k] == NUL &&
    after[pos + k + 1..] == before[pos + k + 1..]
  }

  /** `snprintf` of a string into the buffer at `pos`. Returns the length of
      the whole text, as `snprintf` does, whether or not it fit. */
  method Snprintf(out: array<char>, pos: nat, text: string) returns (n: nat)
    requires pos < out.Length
    modifies out
    ensures n == |text|
    ensures SnprintfEffect(old(out[..]), out[..], pos, text)
  {
    var room := out.Length - pos - 1;
    var k := if |text| <= room then |text| else room;
    var i := 0;
    while i < k
      invariant 0 <= i <= k
      invariant out[..pos] == old(out[..pos])
      invariant out[pos..pos + i] == text[..i]
      invariant out[pos + i..] == old(out[pos + i..])
    {
      out[pos + i] := text[i];
      i := i + 1;
    }
    out[pos + k] := NUL;
    n := |text|;
  }
}
