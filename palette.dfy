/** The colour palette both colour pickers offer; the first entry is the default. */
module Palette {

  const Colors: seq<string> := ["#3b82f6", "#10b981", "#f59e0b", "#ef4444", "#8b5cf6", "#ec4899", "#6366f1"]

  /** `x || COLORS[0]`: the given colour, or the default when it is empty. */
  function OrDefault(color: string): (c: string)
    ensures c != ""
    ensures color != "" ==> c == color
    ensures color == "" ==> c == Colors[0]
  {
    if color == "" then Colors[0] else color
  }
}
