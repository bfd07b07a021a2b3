/**
 * `split_roast_and_gif`: the convention by which the language model's
 * output is cut into the spoken reply and the GIF search phrase.
 */
module ReplyParser {
  import opened Wrappers
  import opened PyStr

  /** The delimiter the persona asks the model to end its reply with. */
  const Marker: string := "GIF:"
  /** The search phrase used when the model gave none. */
  const DefaultGifPrompt: string := "surprise me"

  datatype ParsedReply = ParsedReply(reply: string, gifPrompt: string)

  /** Split at the first `GIF:` and strip both halves; without the marker the
      text is returned as it is, with the default search phrase. */
  function SplitRoastAndGif(text: string): (p: ParsedReply)
    ensures !Contains(text, Marker) ==> p == ParsedReply(text, DefaultGifPrompt)
    ensures Contains(text, Marker) ==>
      var i := Find(text, Marker).value;
      p == ParsedReply(Strip(text[..i]), Strip(text[i + |Marker|..]))
  {
    if In(Marker, text) then
      var (before, after) := SplitOnce(text, Marker).value;
      ParsedReply(Strip(before), Strip(after))
    else
      ParsedReply(text, DefaultGifPrompt)
  }

  lemma MarkerHasNoSpace()
    ensures |Marker| == 4 && NoSpace(Marker)
  {
    assert Marker == ['G', 'I', 'F', ':'];
  }

  /** Two occurrences of `GIF:` never overlap: 'G' appears in it only first. */
  lemma MarkerNoOverlap(s: string, a: int, b: int)
    ensures OccursAt(s, Marker, a) && OccursAt(s, Marker, b) && a < b ==> a + |Marker| <= b
  {
    if OccursAt(s, Marker, a) && OccursAt(s, Marker, b) && a < b {
      assert s[b] == s[b..b + 4][0] == 'G';
      var w := s[a..a + 4];
      assert s[a + 1] == w[1] && s[a + 2] == w[2] && s[a + 3] == w[3];
    }
  }

  /** With the marker present, the text is `before + "GIF:" + after` where
      `before` holds no marker, and the parser returns both halves stripped. */
  lemma SplitReconstructs(text: string)
    requires Contains(text, Marker)
    ensures var i := Find(text, Marker).value;
      var before, after := text[..i], text[i + |Marker|..];
      && text == before + Marker + after
      && !Contains(before, Marker)
      && SplitRoastAndGif(text) == ParsedReply(Strip(before), Strip(after))
  {
    var (before, after) := SplitOnce(text, Marker).value;
    var i := Find(text, Marker).value;
    assert before == text[..i] && after == text[i + |Marker|..];
  }

  /** Any decomposition `before + "GIF:" + after` with no marker in `before`
      is the one the parser uses: it cuts at exactly that marker. */
  lemma SplitAtFirstMarker(text: string, before: string, after: string)
    requires text == before + Marker + after && !Contains(before, Marker)
    ensures SplitRoastAndGif(text) == ParsedReply(Strip(before), Strip(after))
  {
    var n := |before|;
    assert before + (Marker + after) == text;
    assert text[n..n + 4] == Marker;
    assert OccursAt(text, Marker, n);
    forall j | 0 <= j < n ensures !OccursAt(text, Marker, j) {
      if j + 4 <= n {
        assert text[j..j + 4] == before[j..j + 4];
        assert !OccursAt(before, Marker, j);
      } else {
        MarkerNoOverlap(text, j, n);
      }
    }
    assert Find(text, Marker).value == n;
    assert text[..n] == before;
    assert text[n + 4..] == after;
  }

  /** The reply never contains the marker. */
  lemma ReplyHasNoMarker(text: string)
    ensures !Contains(SplitRoastAndGif(text).reply, Marker)
  {
    if Contains(text, Marker) {
      var i := Find(text, Marker).value;
      var before := text[..i];
      var lead := LeadingSpaces(before);
      MarkerHasNoSpace();
      assert before + text[i..] == text;
      forall j ensures !OccursAt(Strip(before), Marker, j) {
        StripKeepsOccurrences(before, Marker, lead + j);
        OccursInConcat(before, text[i..], Marker, lead + j);
      }
    }
  }

  /** Only the first marker is a split point: every later `GIF:` in the text
      is kept in the search phrase, at the same place once the first marker
      and the stripped whitespace are accounted for, and the phrase holds no
      other. */
  lemma LaterMarkersStayInGifPrompt(text: string, i: nat, k: int)
    requires Find(text, Marker) == Some(i)
    ensures var shift := i + |Marker| + LeadingSpaces(text[i + |Marker|..]);
      OccursAt(text, Marker, k) <==>
        (k == i || (k >= shift && OccursAt(SplitRoastAndGif(text).gifPrompt, Marker, k - shift)))
  {
    var j := i + |Marker|;
    assert OccursAt(text, Marker, i);
    assert Contains(text, Marker);
    MarkersAroundFirst(text, i, Strip(text[j..]), k);
  }

  /** The case analysis behind LaterMarkersStayInGifPrompt, stated for the
      stripped rest `g` after the first marker at `i`. */
  lemma MarkersAroundFirst(text: string, i: nat, g: string, k: int)
    requires OccursAt(text, Marker, i) && forall j :: 0 <= j < i ==> !OccursAt(text, Marker, j)
    requires g == Strip(text[i + |Marker|..])
    ensures var shift := i + |Marker| + LeadingSpaces(text[i + |Marker|..]);
      OccursAt(text, Marker, k) <==> (k == i || (k >= shift && OccursAt(g, Marker, k - shift)))
  {
    MarkerHasNoSpace();
    var j := i + |Marker|;
    var shift := j + LeadingSpaces(text[j..]);
    if k >= j {
      OccurrenceAfterMarker(text, j, shift, k);
    } else if k > i {
      MarkerNoOverlap(text, i, k);
    }
  }

  /** Past the first marker, occurrences in the text are occurrences in the
      stripped rest. */
  lemma OccurrenceAfterMarker(text: string, j: nat, shift: int, k: int)
    requires j <= |text| && j <= k && shift == j + LeadingSpaces(text[j..])
    ensures OccursAt(text, Marker, k) <==> (k >= shift && OccursAt(Strip(text[j..]), Marker, k - shift))
  {
    MarkerHasNoSpace();
    OccursInSuffix(text, Marker, j, k);
    StripKeepsOccurrences(text[j..], Marker, k - j);
    assert k - j - LeadingSpaces(text[j..]) == k - shift;
  }
}
