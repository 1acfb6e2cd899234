/** Keyboard mapping (src/input.rs): a key event in the current mode becomes
    at most one application action. Presses are looked up by X11 keysym
    (the symbol the layout produces), viewer key releases by evdev keycode
    (the physical key). */
module Input {
  import opened Base

  // Evdev keycodes of the physical H, J, K, L, W and 0 keys.
  const KEY_H: nat := 35
  const KEY_J: nat := 36
  const KEY_K: nat := 37
  const KEY_L: nat := 38
  const KEY_W: nat := 17
  const KEY_0: nat := 11

  // X11 keysyms.
  const SYM_Q: nat := 0x71
  const SYM_ESCAPE: nat := 0xff1b
  const SYM_RETURN: nat := 0xff0d
  const SYM_S: nat := 0x73
  const SYM_H: nat := 0x68
  const SYM_J: nat := 0x6a
  const SYM_K: nat := 0x6b
  const SYM_L: nat := 0x6c
  const SYM_LEFT: nat := 0xff51
  const SYM_UP: nat := 0xff52
  const SYM_RIGHT: nat := 0xff53
  const SYM_DOWN: nat := 0xff54
  const SYM_N: nat := 0x6e
  const SYM_P: nat := 0x70
  const SYM_G: nat := 0x67
  const SYM_SHIFT_G: nat := 0x47
  const SYM_PLUS: nat := 0x2b
  const SYM_EQUAL: nat := 0x3d
  const SYM_MINUS: nat := 0x2d
  const SYM_0: nat := 0x30
  const SYM_E: nat := 0x65
  const SYM_F: nat := 0x66
  const SYM_R: nat := 0x72
  const SYM_SHIFT_R: nat := 0x52
  const SYM_SPACE: nat := 0x20
  const SYM_BACKSPACE: nat := 0xff08

  datatype PanDirection = Left | Right | Up | Down

  datatype Action =
    | Quit | ToggleMode | EscapeOrQuit
    | NextImage | PrevImage | FirstImage | LastImage
    | ZoomIn | ZoomOut | ZoomReset
    | PanStart(dir: PanDirection) | PanStop(dir: PanDirection)
    | Fullscreen | RotateCW | RotateCCW | ToggleExif | FitToWindow | ActualSize
    | MoveLeft | MoveRight | MoveUp | MoveDown | GalleryFirst | GalleryLast
    | CycleSort

  datatype Mode = Viewer | Gallery

  datatype KeyEvent = KeyEvent(keycode: nat, keysym: nat, pressed: bool, ctrl: bool, shift: bool)

  /** The keysyms handled in both modes before any mode-specific table. */
  predicate GlobalSym(sym: nat)
  {
    sym in {SYM_Q, SYM_ESCAPE, SYM_RETURN, SYM_S}
  }

  /** The direction of the vi keys and the arrows. */
  function SymDirection(sym: nat): (d: Option<PanDirection>)
    ensures d == Some(Left) <==> sym == SYM_H || sym == SYM_LEFT
    ensures d == Some(Right) <==> sym == SYM_L || sym == SYM_RIGHT
    ensures d == Some(Up) <==> sym == SYM_K || sym == SYM_UP
    ensures d == Some(Down) <==> sym == SYM_J || sym == SYM_DOWN
  {
    if sym == SYM_H || sym == SYM_LEFT then Some(Left)
    else if sym == SYM_L || sym == SYM_RIGHT then Some(Right)
    else if sym == SYM_K || sym == SYM_UP then Some(Up)
    else if sym == SYM_J || sym == SYM_DOWN then Some(Down)
    else None
  }

  /** A press that neither Ctrl+0 nor Shift+W claims, so the keysym table decides. */
  predicate PlainPress(keycode: nat, ctrl: bool, shift: bool)
  {
    !(ctrl && keycode == KEY_0) && !(shift && keycode == KEY_W)
  }

  /** The keysyms of the viewer table other than the pan keys. */
  predicate ViewerTableSym(sym: nat)
  {
    sym in {SYM_N, SYM_P, SYM_G, SYM_SHIFT_G, SYM_PLUS, SYM_EQUAL, SYM_MINUS, SYM_0,
            SYM_E, SYM_F, SYM_R, SYM_SHIFT_R, SYM_SPACE, SYM_BACKSPACE}
  }

  /** `map_viewer_key`: a key press in the viewer. */
  function MapViewerKey(keycode: nat, sym: nat, ctrl: bool, shift: bool): (r: Option<Action>)
    ensures ctrl && keycode == KEY_0 ==> r == Some(ActualSize)
    ensures shift && keycode == KEY_W ==> r == Some(FitToWindow)
    ensures !(ctrl && keycode == KEY_0) && !(shift && keycode == KEY_W) && SymDirection(sym).Some? ==>
      r == Some(PanStart(SymDirection(sym).value))
    ensures r.Some? && r.value.PanStart? ==> SymDirection(sym) == Some(r.value.dir)
    ensures r.Some? ==> !r.value.PanStop?
    ensures PlainPress(keycode, ctrl, shift) ==> (r == Some(NextImage) <==> sym == SYM_N || sym == SYM_SPACE)
    ensures PlainPress(keycode, ctrl, shift) ==> (r == Some(PrevImage) <==> sym == SYM_P || sym == SYM_BACKSPACE)
    ensures PlainPress(keycode, ctrl, shift) ==> (r == Some(FirstImage) <==> sym == SYM_G)
    ensures PlainPress(keycode, ctrl, shift) ==> (r == Some(LastImage) <==> sym == SYM_SHIFT_G)
    ensures PlainPress(keycode, ctrl, shift) ==> (r == Some(ZoomIn) <==> sym == SYM_PLUS || sym == SYM_EQUAL)
    ensures PlainPress(keycode, ctrl, shift) ==> (r == Some(ZoomOut) <==> sym == SYM_MINUS)
    ensures PlainPress(keycode, ctrl, shift) ==> (r == Some(ZoomReset) <==> sym == SYM_0)
    ensures PlainPress(keycode, ctrl, shift) ==> (r == Some(ToggleExif) <==> sym == SYM_E)
    ensures PlainPress(keycode, ctrl, shift) ==> (r == Some(Fullscreen) <==> sym == SYM_F)
    ensures PlainPress(keycode, ctrl, shift) ==> (r == Some(RotateCW) <==> sym == SYM_R)
    ensures PlainPress(keycode, ctrl, shift) ==> (r == Some(RotateCCW) <==> sym == SYM_SHIFT_R)
    ensures r.None? <==> PlainPress(keycode, ctrl, shift) && SymDirection(sym).None? && !ViewerTableSym(sym)
  {
    if ctrl && keycode == KEY_0 then Some(ActualSize)
    else if shift && keycode == KEY_W then Some(FitToWindow)
    else if SymDirection(sym).Some? then Some(PanStart(SymDirection(sym).value))
    else if sym == SYM_N then Some(NextImage)
    else if sym == SYM_P then Some(PrevImage)
    else if sym == SYM_G then Some(FirstImage)
    else if sym == SYM_SHIFT_G then Some(LastImage)
    else if sym == SYM_PLUS || sym == SYM_EQUAL then Some(ZoomIn)
    else if sym == SYM_MINUS then Some(ZoomOut)
    else if sym == SYM_0 then Some(ZoomReset)
    else if sym == SYM_E then Some(ToggleExif)
    else if sym == SYM_F then Some(Fullscreen)
    else if sym == SYM_R then Some(RotateCW)
    else if sym == SYM_SHIFT_R then Some(RotateCCW)
    else if sym == SYM_SPACE then Some(NextImage)
    else if sym == SYM_BACKSPACE then Some(PrevImage)
    else None
  }

  /** The direction of a physical H, J, K or L key. */
  function KeycodeDirection(keycode: nat): (d: Option<PanDirection>)
    ensures d.Some? <==> keycode in {KEY_H, KEY_J, KEY_K, KEY_L}
  {
    if keycode == KEY_H then Some(Left)
    else if keycode == KEY_J then Some(Down)
    else if keycode == KEY_K then Some(Up)
    else if keycode == KEY_L then Some(Right)
    else None
  }

  /** The arrow keysyms alone. */
  function ArrowDirection(sym: nat): (d: Option<PanDirection>)
    ensures d.Some? <==> sym in {SYM_LEFT, SYM_RIGHT, SYM_UP, SYM_DOWN}
    ensures d.Some? ==> SymDirection(sym) == d
  {
    if sym == SYM_LEFT then Some(Left)
    else if sym == SYM_RIGHT then Some(Right)
    else if sym == SYM_UP then Some(Up)
    else if sym == SYM_DOWN then Some(Down)
    else None
  }

  /** `map_viewer_key_release` as written: the physical H/J/K/L keys decide
      regardless of the keysym; otherwise only the arrows stop a pan. */
  function MapViewerKeyRelease(keycode: nat, sym: nat): (r: Option<Action>)
    ensures KeycodeDirection(keycode).Some? ==> r == Some(PanStop(KeycodeDirection(keycode).value))
    ensures KeycodeDirection(keycode).None? ==>
      r == (if ArrowDirection(sym).Some? then Some(PanStop(ArrowDirection(sym).value)) else None)
    ensures r.None? || r.value.PanStop?
  {
    match KeycodeDirection(keycode)
    case Some(d) => Some(PanStop(d))
    case None =>
      match ArrowDirection(sym)
      case Some(d) => Some(PanStop(d))
      case None => None
  }

  /** As written, a press and the release of the same key can name different
      directions: where the physical J key (keycode 36) produces 'h', as on a
      Dvorak layout, the press starts a left pan and the release stops a
      downward one, so the left pan is never stopped. */
  lemma ReleaseCanStopOtherDirection()
    ensures MapViewerKey(KEY_J, SYM_H, false, false) == Some(PanStart(Left))
    ensures MapViewerKeyRelease(KEY_J, SYM_H) == Some(PanStop(Down))
  {
  }

  /** The release mapping the press mapping calls for: the keysym's own
      direction first, the physical key only for keysyms without one. */
  function MapViewerKeyReleaseFixed(keycode: nat, sym: nat): (r: Option<Action>)
    ensures SymDirection(sym).Some? ==> r == Some(PanStop(SymDirection(sym).value))
    ensures SymDirection(sym).None? ==>
      r == (if KeycodeDirection(keycode).Some? then Some(PanStop(KeycodeDirection(keycode).value)) else None)
    ensures r.None? || r.value.PanStop?
  {
    match SymDirection(sym)
    case Some(d) => Some(PanStop(d))
    case None =>
      match KeycodeDirection(keycode)
      case Some(d) => Some(PanStop(d))
      case None => None
  }

  /** With the corrected release, releasing the key that started a pan stops that pan. */
  lemma ReleaseStopsPressedDirection(keycode: nat, sym: nat, ctrl: bool, shift: bool)
    requires MapViewerKey(keycode, sym, ctrl, shift).Some? && MapViewerKey(keycode, sym, ctrl, shift).value.PanStart?
    ensures MapViewerKeyReleaseFixed(keycode, sym) == Some(PanStop(MapViewerKey(keycode, sym, ctrl, shift).value.dir))
  {
  }

  /** Both release mappings agree on a QWERTY layout, where each physical
      vi key produces its own letter, and on every arrow key. */
  lemma FixedReleaseAgreesOnQwerty(keycode: nat, sym: nat)
    requires (keycode == KEY_H && sym == SYM_H) || (keycode == KEY_J && sym == SYM_J)
          || (keycode == KEY_K && sym == SYM_K) || (keycode == KEY_L && sym == SYM_L)
          || (KeycodeDirection(keycode).None? && ArrowDirection(sym).Some?)
    ensures MapViewerKeyReleaseFixed(keycode, sym) == MapViewerKeyRelease(keycode, sym)
  {
  }

  /** `map_gallery_key`: the vi keys and arrows move the selection, g/G jump to the ends. */
  function MapGalleryKey(sym: nat): (r: Option<Action>)
    ensures SymDirection(sym) == Some(Left) <==> r == Some(MoveLeft)
    ensures SymDirection(sym) == Some(Right) <==> r == Some(MoveRight)
    ensures SymDirection(sym) == Some(Up) <==> r == Some(MoveUp)
    ensures SymDirection(sym) == Some(Down) <==> r == Some(MoveDown)
    ensures r == Some(GalleryFirst) <==> sym == SYM_G
    ensures r == Some(GalleryLast) <==> sym == SYM_SHIFT_G
    ensures r.None? <==> SymDirection(sym).None? && sym != SYM_G && sym != SYM_SHIFT_G
  {
    match SymDirection(sym)
    case Some(Left) => Some(MoveLeft)
    case Some(Right) => Some(MoveRight)
    case Some(Up) => Some(MoveUp)
    case Some(Down) => Some(MoveDown)
    case None =>
      if sym == SYM_G then Some(GalleryFirst)
      else if sym == SYM_SHIFT_G then Some(GalleryLast)
      else None
  }

  /** `map_key`: releases only matter in the viewer, then the global keys,
      then the table of the current mode. */
  function MapKey(event: KeyEvent, mode: Mode): (r: Option<Action>)
    ensures !event.pressed && mode == Gallery ==> r.None?
    ensures !event.pressed ==> r.None? || r.value.PanStop?
    ensures event.pressed ==> r.None? || !r.value.PanStop?
  {
    if !event.pressed then
      match mode
      case Viewer => MapViewerKeyReleaseFixed(event.keycode, event.keysym)
      case Gallery => None
    else
      var sym := event.keysym;
      if sym == SYM_Q then Some(Quit)
      else if sym == SYM_ESCAPE then Some(EscapeOrQuit)
      else if sym == SYM_RETURN then Some(ToggleMode)
      else if sym == SYM_S then Some(CycleSort)
      else match mode
        case Viewer => MapViewerKey(event.keycode, sym, event.ctrl, event.shift)
        case Gallery => MapGalleryKey(sym)
  }

  /** q, Escape, Return and s act the same in both modes, ahead of any modifier or table entry. */
  lemma GlobalKeysInBothModes(event: KeyEvent)
    requires event.pressed && GlobalSym(event.keysym)
    ensures MapKey(event, Viewer) == MapKey(event, Gallery)
    ensures event.keysym == SYM_Q ==> MapKey(event, Viewer) == Some(Quit)
    ensures event.keysym == SYM_ESCAPE ==> MapKey(event, Viewer) == Some(EscapeOrQuit)
    ensures event.keysym == SYM_RETURN ==> MapKey(event, Viewer) == Some(ToggleMode)
    ensures event.keysym == SYM_S ==> MapKey(event, Viewer) == Some(CycleSort)
  {
  }

  /** A key that pans in the viewer moves the selection the same way in the gallery. */
  lemma PanKeysMoveGallery(event: KeyEvent)
    requires event.pressed && !(event.ctrl && event.keycode == KEY_0) && !(event.shift && event.keycode == KEY_W)
    requires MapKey(event, Viewer).Some? && MapKey(event, Viewer).value.PanStart?
    ensures MapKey(event, Gallery) == Some(match MapKey(event, Viewer).value.dir
                                           case Left => MoveLeft case Right => MoveRight
                                           case Up => MoveUp case Down => MoveDown)
  {
  }

  /** Ctrl+0 and Shift+W (by physical key) win over the keysym table, but
      not over the global keys. */
  lemma ModifiersBeforeTable(event: KeyEvent)
    requires event.pressed && !GlobalSym(event.keysym)
    ensures event.ctrl && event.keycode == KEY_0 ==> MapKey(event, Viewer) == Some(ActualSize)
    ensures event.shift && event.keycode == KEY_W ==> MapKey(event, Viewer) == Some(FitToWindow)
  {
  }
}
