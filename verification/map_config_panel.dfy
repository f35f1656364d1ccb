/**
  The map configuration dialog: opening it fills the width and height
  inputs with the map's current size, and its resize action checks the
  typed text. Each failure shows one message and leaves the map alone;
  only two numbers within the limits resize the map and close the dialog.
 */
module MapConfigPanel {
  import opened Wrappers
  import opened Decimal
  import opened MapStore

  const MinMapSize: int := 1
  const MaxMapSize: int := 256

  /** The panel's view of the world: the map store, the dialog, the two inputs' text and the message shown. */
  datatype PanelState = PanelState(
    mapState: MapState,
    isDialogOpen: bool,
    widthText: string,
    heightText: string,
    error: Option<string>)

  const NotNumbersMessage: string := "Width and height must be numbers"

  /** The message for a size outside the limits, naming the offending input. */
  function RangeMessage(what: string): string {
    what + " must be between " + IntToString(MinMapSize) + " and " + IntToString(MaxMapSize)
  }

  predicate InSizeRange(n: int) {
    MinMapSize <= n <= MaxMapSize
  }

  /** The panel as it mounts: dialog closed, inputs holding the map's size, no message. */
  function InitialPanel(ms: MapState): (p: PanelState)
    ensures p.mapState == ms && !p.isDialogOpen && p.error.None?
    ensures ParseInt(p.widthText) == Some(ms.tileMap.width)
    ensures ParseInt(p.heightText) == Some(ms.tileMap.height)
  {
    ParseIntRoundTrip(ms.tileMap.width);
    ParseIntRoundTrip(ms.tileMap.height);
    PanelState(ms, false, IntToString(ms.tileMap.width), IntToString(ms.tileMap.height), None)
  }

  /**
    The dialog opens or closes. Opening refills both inputs with the map's
    current size and clears the message; closing keeps them.
   */
  function OpenChange(s: PanelState, open: bool): (r: PanelState)
    ensures r.isDialogOpen == open && r.mapState == s.mapState
    ensures open ==> r.error.None? &&
                     ParseInt(r.widthText) == Some(s.mapState.tileMap.width) &&
                     ParseInt(r.heightText) == Some(s.mapState.tileMap.height)
    ensures !open ==> r == s.(isDialogOpen := false)
  {
    if open then
      ParseIntRoundTrip(s.mapState.tileMap.width);
      ParseIntRoundTrip(s.mapState.tileMap.height);
      s.(isDialogOpen := true, widthText := IntToString(s.mapState.tileMap.width),
         heightText := IntToString(s.mapState.tileMap.height), error := None)
    else s.(isDialogOpen := false)
  }

  /** The Cancel button closes the dialog and nothing else. */
  function Cancel(s: PanelState): (r: PanelState)
    ensures !r.isDialogOpen && r.mapState == s.mapState && r.error == s.error
    ensures r.widthText == s.widthText && r.heightText == s.heightText
  {
    s.(isDialogOpen := false)
  }

  /** Typing into the width input. */
  function SetWidthText(s: PanelState, text: string): (r: PanelState)
    ensures r.widthText == text && r == s.(widthText := text)
  {
    s.(widthText := text)
  }

  /** Typing into the height input. */
  function SetHeightText(s: PanelState, text: string): (r: PanelState)
    ensures r.heightText == text && r == s.(heightText := text)
  {
    s.(heightText := text)
  }

  /**
    Resize to the typed `width × height` when both inputs parse as numbers
    within the limits, and close the dialog; otherwise report the first
    failing check (not numbers, then width, then height) and change nothing
    else.
   */
  function HandleResize(s: PanelState): (r: PanelState)
    requires LayersFitMap(s.mapState.tileMap)
    ensures var width, height := ParseInt(s.widthText), ParseInt(s.heightText);
            (r.error.None? <==> width.Some? && height.Some? && InSizeRange(width.value) && InSizeRange(height.value)) &&
            (r.error.None? ==> r.mapState == ResizeMap(s.mapState, width.value, height.value) && !r.isDialogOpen) &&
            (r.error.Some? ==> r.mapState == s.mapState && r.isDialogOpen == s.isDialogOpen) &&
            (width.None? || height.None? ==> r.error == Some(NotNumbersMessage)) &&
            (width.Some? && height.Some? && !InSizeRange(width.value) ==> r.error == Some(RangeMessage("Width"))) &&
            (width.Some? && height.Some? && InSizeRange(width.value) && !InSizeRange(height.value) ==>
               r.error == Some(RangeMessage("Height")))
    ensures r.widthText == s.widthText && r.heightText == s.heightText
  {
    var cleared := s.(error := None);
    var width, height := ParseInt(s.widthText), ParseInt(s.heightText);
    if width.None? || height.None? then cleared.(error := Some(NotNumbersMessage))
    else
      var newWidth, newHeight := width.value, height.value;
      if newWidth < MinMapSize || newWidth > MaxMapSize then cleared.(error := Some(RangeMessage("Width")))
      else if newHeight < MinMapSize || newHeight > MaxMapSize then cleared.(error := Some(RangeMessage("Height")))
      else cleared.(mapState := ResizeMap(s.mapState, newWidth, newHeight), isDialogOpen := false)
  }

  lemma LimitsRendered()
    ensures IntToString(MinMapSize) == "1" && IntToString(MaxMapSize) == "256"
  {
    assert NatToString(25) == NatToString(2) + [DigitChar(5)];
    assert NatToString(256) == NatToString(25) + [DigitChar(6)];
  }

  /** The range message reads exactly "… must be between 1 and 256". */
  lemma RangeMessageText(what: string)
    ensures RangeMessage(what) == what + " must be between 1 and 256"
  {
    LimitsRendered();
  }

  /**
    Whatever is typed, the map keeps every layer at its own size and its
    size stays within the limits when it started there.
   */
  lemma ResizeKeepsMapInLimits(s: PanelState)
    requires LayersFitMap(s.mapState.tileMap)
    requires InSizeRange(s.mapState.tileMap.width) && InSizeRange(s.mapState.tileMap.height)
    ensures var m := HandleResize(s).mapState.tileMap;
            LayersFitMap(m) && InSizeRange(m.width) && InSizeRange(m.height)
  {
  }

  /**
    Typing a size within the limits, as the map prints it, and pressing
    Resize resizes the map to exactly that size and closes the dialog.
   */
  lemma TypedSizeResizes(s: PanelState, width: int, height: int)
    requires LayersFitMap(s.mapState.tileMap) && InSizeRange(width) && InSizeRange(height)
    ensures var r := HandleResize(SetHeightText(SetWidthText(s, IntToString(width)), IntToString(height)));
            r.error.None? && !r.isDialogOpen && r.mapState == ResizeMap(s.mapState, width, height)
  {
    ParseIntRoundTrip(width);
    ParseIntRoundTrip(height);
  }

  /**
    Opening the dialog and pressing Resize straight away leaves the map as
    it was and closes the dialog, when the map's size is within the limits.
   */
  lemma OpenThenResizeKeepsMap(s: PanelState)
    requires LayersFitMap(s.mapState.tileMap)
    requires InSizeRange(s.mapState.tileMap.width) && InSizeRange(s.mapState.tileMap.height)
    ensures var r := HandleResize(OpenChange(s, true));
            r.error.None? && !r.isDialogOpen && r.mapState == s.mapState
  {
    ResizeSameSize(s.mapState);
  }
}
