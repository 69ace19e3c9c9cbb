/**
 * OscMidiMessage: the 4-byte OSC MIDI argument (port id, status byte,
 * data1, data2).  The status byte follows the MIDI 1.0 channel-voice layout:
 * the high nibble selects the message type (0x8 note off ... 0xE pitch
 * wheel, 0xF system) and the low nibble the channel.
 */
module OscMidiMessage {
  import opened Bytes

  /** The message types, in the order of their status bases 128, 144, ..., 240. */
  datatype MidiType =
    | NoteOff | NoteOn | PolyAfterTouch | ControlChange | ProgramChange | ChannelAfterTouch | PitchWheel
    | System | Unknown

  /** Channels Ch1..Ch16 are 0..15; NotApplicable is 16 (the enum's ordinals). */
  type Channel = c: int | 0 <= c <= 16
  const NOT_APPLICABLE: Channel := 16

  /** The struct is a value: setters return the updated value. */
  datatype OscMidiMessage = OscMidiMessage(port: byte, status: byte, data1: byte, data2: byte)

  /** `new OscMidiMessage()`: all four bytes zero. */
  const DEFAULT: OscMidiMessage := OscMidiMessage(0, 0, 0, 0)

  /** The status base of a type: 128 + 16 * its position; Unknown has none. */
  function StatusBase(t: MidiType): (b: int)
    requires t != Unknown
    ensures 128 <= b <= 240 && b % 16 == 0
  {
    match t
    case NoteOff => 128
    case NoteOn => 144
    case PolyAfterTouch => 160
    case ControlChange => 176
    case ProgramChange => 192
    case ChannelAfterTouch => 208
    case PitchWheel => 224
    case System => 240
  }

  /** The channel-voice type whose status base is 128 + 16 * k. */
  function VoiceType(k: int): (t: MidiType)
    requires 0 <= k < 7
    ensures t != System && t != Unknown && StatusBase(t) == 128 + 16 * k
  {
    [NoteOff, NoteOn, PolyAfterTouch, ControlChange, ProgramChange, ChannelAfterTouch, PitchWheel][k]
  }

  /** GetTypeAndChannel: the type and channel the status byte encodes. */
  function GetTypeAndChannel(m: OscMidiMessage): (r: (MidiType, Channel))
    ensures m.status < 128 ==> r == (Unknown, NOT_APPLICABLE)
    ensures m.status > 239 ==> r == (System, NOT_APPLICABLE)
    ensures 128 <= m.status <= 239 ==>
      r.0 != System && r.0 != Unknown && r.1 < 16 && m.status == StatusBase(r.0) + r.1
  {
    if m.status < 128 then (Unknown, NOT_APPLICABLE)
    else if m.status > 239 then (System, NOT_APPLICABLE)
    else (VoiceType((m.status - 128) / 16), m.status % 16)
  }

  /** SetTypeAndChannel: status := (byte)(base + channel); Unknown sets 0. Nothing else changes. */
  function SetTypeAndChannel(m: OscMidiMessage, t: MidiType, channel: Channel): (r: OscMidiMessage)
    ensures r.port == m.port && r.data1 == m.data1 && r.data2 == m.data2
    ensures t == Unknown ==> r.status == 0
    ensures t != Unknown ==> r.status == (StatusBase(t) + channel) % 256
  {
    var status := if t == Unknown then 0 else (StatusBase(t) + channel) % 256;
    m.(status := status)
  }

  /** Set then Get gives back the type and channel, for channel-voice types and channels Ch1..Ch16. */
  lemma SetGetRoundTrip(m: OscMidiMessage, t: MidiType, channel: Channel)
    requires t != System && t != Unknown && channel < 16
    ensures GetTypeAndChannel(SetTypeAndChannel(m, t, channel)) == (t, channel)
  {
    var s := StatusBase(t) + channel;
    assert s % 256 == s;
    var k := (s - 128) / 16;
    assert VoiceType(k) == t by {
      assert StatusBase(t) == 128 + 16 * k;
    }
  }

  /** A System status keeps the channel bits but reads back without a channel. */
  lemma SystemReadsWithoutChannel(m: OscMidiMessage, channel: Channel)
    requires channel < 16
    ensures GetTypeAndChannel(SetTypeAndChannel(m, System, channel)) == (System, NOT_APPLICABLE)
  {
  }

  /**
   * NotApplicable is added to the base like a channel: a note off "without
   * channel" reads back as a note on for Ch1, and a System one wraps to 0.
   */
  lemma NotApplicableShiftsType(m: OscMidiMessage)
    ensures GetTypeAndChannel(SetTypeAndChannel(m, NoteOff, NOT_APPLICABLE)) == (NoteOn, 0)
    ensures SetTypeAndChannel(m, System, NOT_APPLICABLE).status == 0
  {
    assert (StatusBase(NoteOff) + NOT_APPLICABLE) % 256 == 144;
  }

  /** A channel-voice status byte is rebuilt exactly from the type and channel Get reports. */
  lemma GetSetInverse(m: OscMidiMessage)
    requires 128 <= m.status <= 239
    ensures SetTypeAndChannel(m, GetTypeAndChannel(m).0, GetTypeAndChannel(m).1) == m
  {
  }

  /** NoteOff(channel, key). */
  function NoteOffMessage(channel: Channel, key: byte): (r: OscMidiMessage)
    ensures r.port == 0 && r.data1 == key && r.data2 == 0
    ensures r.status == SetTypeAndChannel(DEFAULT, NoteOff, channel).status
  {
    SetTypeAndChannel(DEFAULT, NoteOff, channel).(data1 := key)
  }

  /** NoteOn(channel, key, velocity). */
  function NoteOnMessage(channel: Channel, key: byte, velocity: byte): (r: OscMidiMessage)
    ensures r.port == 0 && r.data1 == key && r.data2 == velocity
    ensures r.status == SetTypeAndChannel(DEFAULT, NoteOn, channel).status
  {
    SetTypeAndChannel(DEFAULT, NoteOn, channel).(data1 := key, data2 := velocity)
  }

  /** ControlChange(channel, number, value). */
  function ControlChangeMessage(channel: Channel, number: byte, value: byte): (r: OscMidiMessage)
    ensures r.port == 0 && r.data1 == number && r.data2 == value
    ensures r.status == SetTypeAndChannel(DEFAULT, ControlChange, channel).status
  {
    SetTypeAndChannel(DEFAULT, ControlChange, channel).(data1 := number, data2 := value)
  }

  /** ProgramChange(channel, number). */
  function ProgramChangeMessage(channel: Channel, number: byte): (r: OscMidiMessage)
    ensures r.port == 0 && r.data1 == number && r.data2 == 0
    ensures r.status == SetTypeAndChannel(DEFAULT, ProgramChange, channel).status
  {
    SetTypeAndChannel(DEFAULT, ProgramChange, channel).(data1 := number)
  }

  /** A factory message for a real channel reads back its own type and channel. */
  lemma FactoriesReadBack(channel: Channel, a: byte, b: byte)
    requires channel < 16
    ensures GetTypeAndChannel(NoteOffMessage(channel, a)) == (NoteOff, channel)
    ensures GetTypeAndChannel(NoteOnMessage(channel, a, b)) == (NoteOn, channel)
    ensures GetTypeAndChannel(ControlChangeMessage(channel, a, b)) == (ControlChange, channel)
    ensures GetTypeAndChannel(ProgramChangeMessage(channel, a)) == (ProgramChange, channel)
  {
    SetGetRoundTrip(DEFAULT, NoteOff, channel);
    SetGetRoundTrip(DEFAULT, NoteOn, channel);
    SetGetRoundTrip(DEFAULT, ControlChange, channel);
    SetGetRoundTrip(DEFAULT, ProgramChange, channel);
  }
}
