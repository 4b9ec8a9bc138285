/** `json::to_string` and `json::to_pretty_string`, and what the reader makes of their results. */
module JsonApi {
  import opened Bytes
  import opened Options
  import opened JsonGrammar
  import opened JsonPrinter
  import opened JsonPretty
  import opened JsonRoundTrip
  import JsonLayout
  import JsonReader
  import JsonStrip

  method ToString(v: Value, stringify: bool) returns (text: seq<byte>)
    requires WellTyped(v)
    ensures text == Render(v, Compact, 0, stringify)
  {
    var os := new OutStream();
    PrintValue(os, v, stringify);
    text := os.text;
  }

  method ToPrettyString(v: Value, stringify: bool) returns (text: seq<byte>)
    requires WellTyped(v)
    ensures text == Render(v, Pretty(2), 0, stringify)
    ensures JsonStrip.Strip(false, false, text).kept == Render(v, Compact, 0, stringify)
  {
    var s := ToString(v, stringify);
    RenderStarts(v, Compact, 0, stringify);
    text := PrettyPrint(s, 2);
    JsonLayout.PrettyTextIsLayout(v, stringify, 2);
    JsonStrip.StripUndoesLayout(v, Pretty(2), stringify);
  }

  /** Printing, prettily or not, and reading with the given budget. */
  method PrintAndRead(v: Value, pretty: bool, stringify: bool, maxDepth: nat, reals: Reals)
      returns (r: Option<Value>)
    requires WellTyped(v) && maxDepth < TWO_32
    ensures r == if Enough(maxDepth, Height(v)) then Some(Canon(v, stringify)) else None
  {
    hide Render, Canon, Height, ValueFrom;
    var text;
    if pretty {
      text := ToPrettyString(v, stringify);
      RoundTrip(v, Pretty(2), stringify, maxDepth, reals);
    } else {
      text := ToString(v, stringify);
      RoundTrip(v, Compact, stringify, maxDepth, reals);
    }
    r := JsonReader.FromString(text, maxDepth, reals);
  }
}
