/** Input events as the editor sees them: the key events of the terminal
    library, and one case standing for every other kind of event. */
module Input {

  /** The modifier keys a key event can carry. */
  datatype Modifier = Shift | Control | Alt | Super | Hyper | Meta

  /** What a key event reports about the key itself. Only character keys
      matter to the editor; every other key is collapsed into one case. */
  datatype KeyCode = Char(ch: char) | NonCharKey

  /** Whether the key went down, repeated or went up. */
  datatype KeyKind = Press | Repeat | Release

  /** A key event carries a code, the exact set of modifiers held and a
      kind; resize, mouse, paste and focus events are all `Other`. */
  datatype Event = Key(code: KeyCode, modifiers: set<Modifier>, kind: KeyKind) | Other
}
