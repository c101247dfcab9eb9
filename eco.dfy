/** web/src/protocol/commands/eco.ts: the eco (night dimming) schedule command. */
module EcoCommand {
  import opened Types

  /** `ecoMode(enabled, startHour, startMinute, endHour, endMinute, brightness)`:
      hours, minutes and brightness are truncated to a byte, never range-checked. */
  function EcoMode(enabled: bool, startHour: int, startMinute: int,
                   endHour: int, endMinute: int, brightness: int): (r: seq<Byte>)
    ensures Framed(r) && |r| == 10 && r[2..4] == [2, 128]
    ensures r[4] <= 1 && (r[4] == 1 <==> enabled)
    ensures r[5..] == [startHour % 256, startMinute % 256, endHour % 256, endMinute % 256, brightness % 256]
  {
    [10, 0, 2, 128,
     if enabled then 1 else 0,
     ToByte(startHour), ToByte(startMinute), ToByte(endHour), ToByte(endMinute), ToByte(brightness)]
  }

  /** A schedule whose fields are all bytes already is sent unchanged, so it can
      be read back from the command. */
  lemma EcoModeReadBack(enabled: bool, sh: int, sm: int, eh: int, em: int, br: int)
    requires 0 <= sh < 256 && 0 <= sm < 256 && 0 <= eh < 256 && 0 <= em < 256 && 0 <= br < 256
    ensures var r := EcoMode(enabled, sh, sm, eh, em, br);
      r[4] == 1 <==> enabled
    ensures EcoMode(enabled, sh, sm, eh, em, br)[5..] == [sh, sm, eh, em, br]
  {
  }
}
