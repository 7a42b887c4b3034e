/**
 * How `process_serial_data` reads one line from the reader device: only a
 * line containing `Card UID:` is a card event, and its uid is the text
 * between the first and the second `": "` of the line, stripped.
 */
module Events {
  import opened Text

  /** The literal that makes a line a card event. */
  const MARKER := "Card UID:"

  /** The separator the uid is cut out with. */
  const COLON := ": "

  /** What one line amounts to. */
  datatype TagLine =
    | NoMarker             // not a card event: ignored
    | Truncated            // marker present but no `": "`: the indexing raises IndexError
    | CardRead(uid: string)

  /** `data.split(": ")[1].strip()`, behind the `"Card UID:" in data` test. */
  function ParseLine(line: string): (r: TagLine)
    ensures r.NoMarker? <==> !Contains(line, MARKER)
    ensures r.Truncated? <==> Contains(line, MARKER) && !Contains(line, COLON)
    ensures r.CardRead? ==> Trimmed(r.uid)
  {
    if !Contains(line, MARKER) then NoMarker
    else
      var parts := Split(line, COLON);
      if |parts| < 2 then Truncated else CardRead(Strip(parts[1]))
  }

  /** `"Card UID"` holds no `:`, so no `": "` starts in `"Card UID:"`. */
  lemma MarkerHasNoColonSpace()
    ensures !Contains("Card UID:", COLON)
  {
    var s := "Card UID:";
    assert forall i :: 0 <= i < 8 ==> s[i] != ':';
    FirstCharMissing(s, COLON);
  }

  /**
   * Round trip: for the line `"Card UID: " + u` the device prints, with `u`
   * free of `": "` and of surrounding whitespace, the uid read is exactly `u`.
   */
  lemma {:induction false} TagLineRoundTrip(u: string)
    requires !Contains(u, COLON) && Trimmed(u)
    ensures ParseLine("Card UID: " + u) == CardRead(u)
  {
    var line := "Card UID: " + u;
    assert line[0..9] == MARKER;
    assert OccursAt(line, MARKER, 0);
    MarkerSplit(u);
    assert Split(line, COLON) == ["Card UID", u];
  }

  /**
   * A card read with an empty uid: the reader strips `"Card UID: "` to
   * `"Card UID:"`, which has the marker but no `": "`, so the event is lost.
   */
  lemma EmptyUidIsTruncated()
    ensures ParseLine("Card UID:") == Truncated
  {
    assert "Card UID:"[0..9] == MARKER;
    assert OccursAt("Card UID:", MARKER, 0);
    MarkerHasNoColonSpace();
  }

  /** `"Card UID: " + u` splits at `": "` into `"Card UID"` and the parts of `u`. */
  lemma MarkerSplit(u: string)
    ensures Split("Card UID: " + u, COLON) == ["Card UID"] + Split(u, COLON)
  {
    assert "Card UID: " + u == "Card UID" + COLON + u;
    MarkerHasNoColonSpace();
    assert "Card UID" + COLON[..|COLON| - 1] == "Card UID:";
    SplitAfterFirst("Card UID", COLON, u);
  }

  /** `"Scan: " + rest` splits at `": "` into `"Scan"` and the parts of `rest`. */
  lemma ScanSplit(rest: string)
    ensures Split("Scan: " + rest, COLON) == ["Scan"] + Split(rest, COLON)
  {
    assert "Scan: " + rest == "Scan" + COLON + rest;
    var scan := "Scan:";
    assert forall i :: 0 <= i < 4 ==> scan[i] != ':';
    FirstCharMissing(scan, COLON);
    assert "Scan" + COLON[..|COLON| - 1] == scan;
    SplitAfterFirst("Scan", COLON, rest);
  }

  /** `"Scan: Card UID: " + u` splits at `": "` into `"Scan"`, `"Card UID"` and the parts of `u`. */
  lemma SplitPrefixedLine(u: string)
    ensures Split("Scan: Card UID: " + u, COLON) == ["Scan", "Card UID"] + Split(u, COLON)
  {
    assert "Scan: Card UID: " + u == "Scan: " + ("Card UID: " + u);
    ScanSplit("Card UID: " + u);
    MarkerSplit(u);
  }

  /**
   * The uid is cut at the first `": "` of the whole line, not the one after
   * the marker: with a prefix such as `"Scan: "` the uid read is `"Card UID"`.
   */
  lemma {:induction false} FirstColonWins(u: string)
    ensures ParseLine("Scan: Card UID: " + u) == CardRead("Card UID")
  {
    var line := "Scan: Card UID: " + u;
    assert line[6..15] == MARKER;
    assert OccursAt(line, MARKER, 6);
    SplitPrefixedLine(u);
    assert Trimmed("Card UID");
  }
}
