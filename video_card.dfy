/**
 * The video card: the display values it derives from one video record (the
 * "m:ss" duration and the compression percentage) and its three pieces of
 * UI state (hovered, preview failed, player open) with the event handlers
 * that change them and the view they select.
 *
 * Media URLs, human-readable file sizes and relative dates come from foreign
 * libraries and are not modelled; a download request carries the public id
 * the full-resolution URL is built from.
 */
module VideoCard {
  import opened Js

  datatype Option<T> = None | Some(value: T)

  /** One video record as the card receives it; sizes are byte counts. */
  datatype Video = Video(
    id: string,
    title: string,
    description: string,
    publicId: string,
    duration: real,
    originalSize: nat,
    compressedSize: nat,
    createdAt: string)

  // ---------------------------------------------------------------------------
  // Duration

  /** `Math.floor(seconds / 60)`: the whole minutes, negative exactly for a negative duration. */
  function MinutesOf(seconds: real): (m: int)
    ensures 60.0 * (m as real) <= seconds < 60.0 * (m as real) + 60.0
    ensures m < 0 <==> seconds < 0.0
  {
    Floor(seconds / 60.0)
  }

  /** `Math.round(seconds % 60)`: between 0 and 60 for a non-negative duration, and between -60 and 0 otherwise. */
  function RemainingSecondsOf(seconds: real): (k: int)
    ensures 0.0 <= seconds ==> 0 <= k <= 60
    ensures seconds <= 0.0 ==> -60 <= k <= 0
  {
    Round(Rem60(seconds))
  }

  /**
   * `formatDuration`: whole minutes (the floor of seconds / 60), a colon, and
   * the rounded remainder of seconds % 60 left-padded with "0" to two characters.
   */
  function FormatDuration(seconds: real): (out: string)
    ensures |out| >= 4
    ensures out[0] == '-' <==> seconds < 0.0
  {
    DurationText(MinutesOf(seconds), RemainingSecondsOf(seconds))
  }

  /**
   * The template literal `${minutes}:${remainingSeconds.toString().padStart(2, "0")}`:
   * the minutes as written, a colon, and a seconds part of at least two
   * characters, which is the two digits of `remaining` when it is below 100.
   */
  function DurationText(minutes: int, remaining: int): (out: string)
    ensures var m := IntToString(minutes);
      |out| >= |m| + 3 && out[..|m|] == m && out[|m|] == ':'
    ensures 0 <= remaining < 100 ==>
              (|out| == |IntToString(minutes)| + 3 &&
               out[|out| - 2..] == [Digit(remaining / 10), Digit(remaining % 10)])
  {
    var m, ss := IntToString(minutes), PadStart(IntToString(remaining), 2, '0');
    assert 0 <= remaining < 100 ==> ss == [Digit(remaining / 10), Digit(remaining % 10)] by {
      if 0 <= remaining < 100 {
        TwoDigits(remaining);
      }
    }
    var out := m + ":" + ss;
    assert out[..|m|] == m;
    out
  }

  /** The text before the last three characters of a rendered duration. */
  function MinutesField(out: string): string
    requires |out| >= 3
  {
    out[..|out| - 3]
  }

  /** The last two characters of a rendered duration. */
  function SecondsField(out: string): string
    requires |out| >= 2
  {
    out[|out| - 2..]
  }

  /** A number below 100 padded to two characters is its two decimal digits. */
  lemma {:induction false} TwoDigits(n: nat)
    requires n < 100
    ensures PadStart(NatToString(n), 2, '0') == [Digit(n / 10), Digit(n % 10)]
  {
    if n >= 10 {
      assert NatToString(n / 10) == [Digit(n / 10)];
    }
  }

  lemma ParseTwoDigits(a: nat, b: nat)
    requires a < 10 && b < 10
    ensures IsDigits([Digit(a), Digit(b)]) && ParseNat([Digit(a), Digit(b)]) == 10 * a + b
  {
    var ss := [Digit(a), Digit(b)];
    assert ss[..1] == [Digit(a)];
    assert ParseNat([Digit(a)]) == a by {
      assert [Digit(a)][..0] == [];
    }
  }

  /** The two fields of "m:ss". */
  lemma Fields(m: string, ss: string)
    requires |ss| == 2
    ensures var out := m + ":" + ss;
      |out| == |m| + 3 && out[|out| - 3] == ':' && MinutesField(out) == m && SecondsField(out) == ss
  {
    var out := m + ":" + ss;
    assert out[..|out| - 3] == m;
    assert out[|out| - 2..] == ss;
  }

  /** The floor and the remainder of a whole number of seconds are integer division and modulus. */
  lemma WholeSecondsSplit(s: nat)
    ensures MinutesOf(s as real) == s / 60
    ensures RemainingSecondsOf(s as real) == s % 60
  {
    var q, r := s / 60, s % 60;
    assert s as real == 60.0 * (q as real) + r as real;
    assert (q as real) <= s as real / 60.0 < q as real + 1.0;
    assert Trunc(s as real / 60.0) == q;
    assert Rem60(s as real) == r as real;
    RoundIntegral(r);
  }

  /**
   * For a whole number of seconds the card shows the minutes in decimal,
   * a colon, and the seconds within the minute as exactly two digits.
   */
  lemma WholeSecondsFormat(s: nat)
    ensures FormatDuration(s as real) ==
              NatToString(s / 60) + ":" + [Digit(s % 60 / 10), Digit(s % 60 % 10)]
  {
    WholeSecondsSplit(s);
    TwoDigits(s % 60);
  }

  /**
   * Reading a whole-seconds duration back: the minutes field is the unpadded
   * decimal minutes, the seconds field is two digits below 60, and together
   * they give the original number of seconds.
   */
  lemma WholeSecondsRoundTrip(s: nat)
    ensures var out := FormatDuration(s as real);
      |out| >= 4 && out[|out| - 3] == ':' &&
      MinutesField(out) == NatToString(s / 60) &&
      IsDigits(SecondsField(out)) &&
      ParseNat(SecondsField(out)) < 60 &&
      60 * ParseNat(MinutesField(out)) + ParseNat(SecondsField(out)) == s
  {
    var m, ss := NatToString(s / 60), [Digit(s % 60 / 10), Digit(s % 60 % 10)];
    WholeSecondsFormat(s);
    Fields(m, ss);
    ParseTwoDigits(s % 60 / 10, s % 60 % 10);
    ParseNatToString(s / 60);
  }

  /**
   * For any non-negative duration the seconds field is the rounded remainder
   * padded to two digits, and it reaches 60 exactly when the remainder is at
   * least 59.5, because the rounding comes after the minutes were floored.
   */
  lemma NonNegativeFormat(seconds: real)
    requires 0.0 <= seconds
    ensures var k := RemainingSecondsOf(seconds);
      0 <= k <= 60 &&
      (k == 60 <==> Rem60(seconds) >= 59.5) &&
      FormatDuration(seconds) ==
        NatToString(MinutesOf(seconds)) + ":" + PadStart(NatToString(k), 2, '0')
  {
  }

  /** A remainder of 59.5 seconds or more rounds up to a seconds field of "60", with the minutes unchanged. */
  lemma {:induction false} SixtySecondsField(seconds: real)
    requires 0.0 <= seconds && Rem60(seconds) >= 59.5
    ensures FormatDuration(seconds) == NatToString(MinutesOf(seconds)) + ":60"
  {
    NonNegativeFormat(seconds);
    assert RemainingSecondsOf(seconds) == 60;
    TwoDigits(60);
    assert [Digit(6), Digit(0)] == "60";
    assert PadStart(NatToString(60), 2, '0') == "60";
  }

  /** 125 seconds shows as "2:05". */
  lemma DurationExampleMinutesAndSeconds(s: nat)
    requires s == 125
    ensures FormatDuration(s as real) == "2:05"
  {
    assert NatToString(2) + ":" + [Digit(0), Digit(5)] == "2:05" by {
      assert NatToString(2) == "2";
    }
    WholeSecondsFormat(s);
    assert s / 60 == 2 && s % 60 / 10 == 0 && s % 60 % 10 == 5;
  }

  /** A whole number of seconds under a minute shows as "0:" and its two digits. */
  lemma WholeSecondsUnderAMinute(s: nat)
    requires s < 60
    ensures FormatDuration(s as real) == "0:" + [Digit(s / 10), Digit(s % 10)]
  {
    var ss := [Digit(s / 10), Digit(s % 10)];
    calc {
      FormatDuration(s as real);
      == { WholeSecondsFormat(s); }
      NatToString(s / 60) + ":" + [Digit(s % 60 / 10), Digit(s % 60 % 10)];
      == { assert s / 60 == 0 && s % 60 == s; }
      NatToString(0) + ":" + ss;
      == { assert NatToString(0) == "0"; }
      "0" + ":" + ss;
      == { assert "0" + ":" == "0:"; }
      "0:" + ss;
    }
  }

  /** 59 seconds shows as "0:59". */
  lemma DurationExampleUnderAMinute(s: nat)
    requires s == 59
    ensures FormatDuration(s as real) == "0:59"
  {
    assert NatToString(0) + ":" + [Digit(5), Digit(9)] == "0:59" by {
      assert NatToString(0) == "0";
    }
    WholeSecondsFormat(s);
    assert s / 60 == 0 && s % 60 / 10 == 5 && s % 60 % 10 == 9;
  }

  /** 600 seconds shows as "10:00". */
  lemma DurationExampleTenMinutes(s: nat)
    requires s == 600
    ensures FormatDuration(s as real) == "10:00"
  {
    assert NatToString(10) + ":" + [Digit(0), Digit(0)] == "10:00" by {
      assert NatToString(1) == "1";
      assert NatToString(10) == "10";
    }
    WholeSecondsFormat(s);
    assert s / 60 == 10 && s % 60 / 10 == 0 && s % 60 % 10 == 0;
  }

  /** Any duration from 59.5 up to (not including) 60 seconds, 59.6 among them, shows as "0:60". */
  lemma DurationJustUnderAMinute(x: real)
    requires 59.5 <= x < 60.0
    ensures FormatDuration(x) == "0:60"
  {
    assert Rem60(x) == x by {
      assert Trunc(x / 60.0) == 0;
    }
    assert MinutesOf(x) == 0;
    assert RemainingSecondsOf(x) == 60;
    assert DurationText(0, 60) == "0:60" by {
      TwoDigits(60);
      assert NatToString(0) == "0";
      assert [Digit(6), Digit(0)] == "60";
    }
  }

  // ---------------------------------------------------------------------------
  // Compression percentage

  /** A JavaScript number that is an integer, or one of the non-finite results of dividing by zero. */
  datatype JsNumber = Finite(value: int) | NaN | NegativeInfinity

  /**
   * `Math.round((1 - compressed / original) * 100)`. An original size of 0
   * gives 0/0 = NaN when nothing was compressed either, and -Infinity otherwise.
   */
  function CompressionPercentage(originalSize: nat, compressedSize: nat): (p: JsNumber)
    ensures p.Finite? <==> originalSize > 0
  {
    if originalSize == 0 then
      if compressedSize == 0 then NaN else NegativeInfinity
    else
      Finite(Round((1.0 - compressedSize as real / originalSize as real) * 100.0))
  }

  /** The text shown after "Compression:": the number's rendering followed by a percent sign. */
  function CompressionLabel(p: JsNumber): (text: string)
    ensures |text| >= 2 && text[|text| - 1] == '%'
    ensures p.Finite? ==> text[..|text| - 1] == IntToString(p.value)
    ensures p.NaN? ==> text[..|text| - 1] == "NaN"
    ensures p.NegativeInfinity? ==> text[..|text| - 1] == "-Infinity"
  {
    match p
    case Finite(v) => IntToString(v) + "%"
    case NaN => "NaN%"
    case NegativeInfinity => "-Infinity%"
  }

  lemma FloorOfQuotient(n: int, d: int)
    requires d > 0
    ensures Floor(n as real / d as real) == n / d
  {
    var q, r := n / d, n % d;
    assert n == d * q + r;
    assert n as real == d as real * q as real + r as real;
    assert q as real <= n as real / d as real < q as real + 1.0 by {
      assert n as real / d as real == q as real + r as real / d as real;
      assert 0.0 <= r as real / d as real < 1.0;
    }
  }

  lemma QuotientForm(o: nat, c: nat)
    requires o > 0
    ensures (1.0 - c as real / o as real) * 100.0 + 0.5 == (200 * (o - c) + o) as real / (2 * o) as real
  {
    var y := c as real / o as real;
    var a := 201.0 - 200.0 * y;
    assert c as real == y * o as real;
    assert a * o as real == 201.0 * o as real - 200.0 * (y * o as real);
    assert (200 * (o - c) + o) as real == a * o as real;
    assert (1.0 - y) * 100.0 + 0.5 == a / 2.0;
    CancelFactor(a, o as real);
    calc {
      (200 * (o - c) + o) as real / (2 * o) as real;
      == (a * o as real) / (2.0 * o as real);
      == a / 2.0;
    }
  }

  lemma CancelFactor(a: real, o: real)
    requires o > 0.0
    ensures (a * o) / (2.0 * o) == a / 2.0
  {
    var z := (a * o) / (2.0 * o);
    assert z * (2.0 * o) == a * o;
    assert (2.0 * z - a) * o == 0.0;
  }

  /** The percentage computed with exact integers: (200 (o - c) + o) div 2o. */
  lemma CompressionAsIntegers(o: nat, c: nat)
    requires o > 0
    ensures CompressionPercentage(o, c) == Finite((200 * (o - c) + o) / (2 * o))
  {
    QuotientForm(o, c);
    FloorOfQuotient(200 * (o - c) + o, 2 * o);
  }

  /** With a compressed size no larger than the original, the percentage lies in [0, 100]. */
  lemma CompressionWithinBounds(o: nat, c: nat)
    requires 0 < o && c <= o
    ensures 0 <= CompressionPercentage(o, c).value <= 100
  {
    assert 0.0 <= c as real / o as real <= 1.0;
  }

  /** A larger compressed size never gives a larger percentage. */
  lemma CompressionNonIncreasing(o: nat, c1: nat, c2: nat)
    requires 0 < o && c1 <= c2
    ensures CompressionPercentage(o, c2).value <= CompressionPercentage(o, c1).value
  {
    assert c1 as real / o as real <= c2 as real / o as real;
    RoundMonotone((1.0 - c2 as real / o as real) * 100.0, (1.0 - c1 as real / o as real) * 100.0);
  }

  /**
   * A compressed file larger than the original gives a percentage of at most
   * 0, and a negative one exactly when the growth rounds away from zero.
   */
  lemma CompressionOfGrowth(o: nat, c: nat)
    requires 0 < o < c
    ensures CompressionPercentage(o, c).value <= 0
    ensures CompressionPercentage(o, c).value < 0 <==> 200 * (c - o) > o
  {
    var y := c as real / o as real;
    RatioAbove(c as real, o as real, 1.0);
    RatioAbove(c as real, o as real, 1.005);
    assert y > 1.0;
    assert y > 1.005 <==> 200 * (c - o) > o;
  }

  /** Comparing a ratio with a constant is comparing the numerator with a multiple of the denominator. */
  lemma RatioAbove(c: real, o: real, t: real)
    requires o > 0.0
    ensures c / o > t <==> c > t * o
  {
    var y := c / o;
    assert c == y * o;
    assert y > t <==> y * o > t * o;
  }

  lemma CompressionExamples(o: nat)
    requires o > 0
    ensures CompressionPercentage(1000, 250) == Finite(75)
    ensures CompressionPercentage(o, o) == Finite(0)
    ensures CompressionPercentage(o, 0) == Finite(100)
  {
    assert o as real / o as real == 1.0;
  }

  /** The label for (1000, 250) is "75%"; an original size of 0 shows "NaN%" or "-Infinity%". */
  lemma CompressionLabelExamples(c: nat)
    requires c > 0
    ensures CompressionLabel(CompressionPercentage(1000, 250)) == "75%"
    ensures CompressionLabel(CompressionPercentage(0, 0)) == "NaN%"
    ensures CompressionLabel(CompressionPercentage(0, c)) == "-Infinity%"
  {
    CompressionExamples(1);
    assert IntToString(75) == "75" by {
      assert NatToString(7) == "7";
    }
  }

  // ---------------------------------------------------------------------------
  // UI state

  /** The card's three state flags. */
  datatype Flags = Flags(isHovered: bool, previewError: bool, showPlayer: bool)

  /** The events whose handlers change the flags. */
  datatype Event =
    | MouseEnter
    | MouseLeave
    | PreviewLoadError
    | OverlayPlayClick
    | PlayButtonClick
    | CloseClick
  {
    predicate IsHoverEvent() { this == MouseEnter || this == MouseLeave }
    predicate IsPlayerEvent() { this == OverlayPlayClick || this == PlayButtonClick || this == CloseClick }
  }

  /** What the figure area shows. */
  datatype FigureView = ThumbnailWithPlayOverlay | PreviewUnavailable | PreviewVideo

  /** Everything the flags decide: the figure area and whether the player modal is open. */
  datatype View = View(figure: FigureView, playerOpen: bool)

  /** The view the card renders for the given flags. */
  function Render(f: Flags): (v: View)
    ensures v.playerOpen <==> f.showPlayer
    ensures v.figure == ThumbnailWithPlayOverlay <==> !f.isHovered
    ensures v.figure == PreviewUnavailable <==> f.isHovered && f.previewError
    ensures v.figure == PreviewVideo <==> f.isHovered && !f.previewError
  {
    var figure :=
      if f.isHovered then
        if f.previewError then PreviewUnavailable else PreviewVideo
      else
        ThumbnailWithPlayOverlay;
    View(figure, f.showPlayer)
  }

  /** The effect of one event handler on the flags. */
  function Step(f: Flags, e: Event): (g: Flags)
    ensures !e.IsHoverEvent() ==> g.isHovered == f.isHovered
    ensures e != PreviewLoadError ==> g.previewError == f.previewError
    ensures !e.IsPlayerEvent() ==> g.showPlayer == f.showPlayer
    ensures f.previewError ==> g.previewError
  {
    match e
    case MouseEnter => f.(isHovered := true)
    case MouseLeave => f.(isHovered := false)
    case PreviewLoadError => f.(previewError := true)
    case OverlayPlayClick => f.(showPlayer := true)
    case PlayButtonClick => f.(showPlayer := true)
    case CloseClick => f.(showPlayer := false)
  }

  /** The flags after the handlers for `es` ran in order; a preview error, once set, stays set. */
  function Run(f: Flags, es: seq<Event>): (g: Flags)
    ensures f.previewError ==> g.previewError
    decreases |es|
  {
    if es == [] then f else Run(Step(f, es[0]), es[1..])
  }

  /** The preview-error flag is set after a run exactly when it was set before or a preview failed to load. */
  lemma {:induction false} PreviewErrorSetOnlyByLoadFailure(f: Flags, es: seq<Event>)
    ensures Run(f, es).previewError <==> f.previewError || PreviewLoadError in es
    decreases |es|
  {
    if es != [] {
      PreviewErrorSetOnlyByLoadFailure(Step(f, es[0]), es[1..]);
      assert es == [es[0]] + es[1..];
    }
  }

  /** Events that are not player events leave the player as it was. */
  lemma {:induction false} PlayerUnaffectedByOtherEvents(f: Flags, es: seq<Event>)
    requires forall i :: 0 <= i < |es| ==> !es[i].IsPlayerEvent()
    ensures Run(f, es).showPlayer == f.showPlayer
    decreases |es|
  {
    if es != [] {
      PlayerUnaffectedByOtherEvents(Step(f, es[0]), es[1..]);
    }
  }

  /** Player events leave the figure area as it was. */
  lemma {:induction false} FigureUnaffectedByPlayerEvents(f: Flags, es: seq<Event>)
    requires forall i :: 0 <= i < |es| ==> es[i].IsPlayerEvent()
    ensures Render(Run(f, es)).figure == Render(f).figure
    ensures Run(f, es).isHovered == f.isHovered && Run(f, es).previewError == f.previewError
    decreases |es|
  {
    if es != [] {
      FigureUnaffectedByPlayerEvents(Step(f, es[0]), es[1..]);
    }
  }

  /** A download request: the full-resolution URL of `publicId`, saved under `title`. */
  datatype DownloadRequest = DownloadRequest(publicId: string, title: string)

  /**
   * One mounted card. `hasOnDelete` says whether the caller supplied the
   * optional delete callback.
   */
  class Card {
    const video: Video
    const hasOnDelete: bool
    var isHovered: bool
    var previewError: bool
    var showPlayer: bool

    function State(): Flags
      reads this
    {
      Flags(isHovered, previewError, showPlayer)
    }

    function CurrentView(): View
      reads this
    {
      Render(State())
    }

    constructor (video: Video, hasOnDelete: bool)
      ensures this.video == video && this.hasOnDelete == hasOnDelete
      ensures State() == Flags(false, false, false)
      ensures CurrentView() == View(ThumbnailWithPlayOverlay, false)
    {
      this.video := video;
      this.hasOnDelete := hasOnDelete;
      isHovered, previewError, showPlayer := false, false, false;
    }

    method OnMouseEnter()
      modifies this
      ensures State() == Step(old(State()), MouseEnter)
      ensures State() == old(State()).(isHovered := true)
      ensures CurrentView().figure == if previewError then PreviewUnavailable else PreviewVideo
    {
      isHovered := true;
    }

    method OnMouseLeave()
      modifies this
      ensures State() == Step(old(State()), MouseLeave)
      ensures State() == old(State()).(isHovered := false)
      ensures CurrentView().figure == ThumbnailWithPlayOverlay
    {
      isHovered := false;
    }

    /** The preview video's error handler; that element exists only while the preview is shown. */
    method OnPreviewError()
      requires CurrentView().figure == PreviewVideo
      modifies this
      ensures State() == Step(old(State()), PreviewLoadError)
      ensures !old(previewError) && State() == old(State()).(previewError := true)
      ensures CurrentView().figure == PreviewUnavailable
    {
      previewError := true;
    }

    /** The play button over the thumbnail; it exists only while the thumbnail is shown. */
    method OnOverlayPlayClick()
      requires CurrentView().figure == ThumbnailWithPlayOverlay
      modifies this
      ensures State() == Step(old(State()), OverlayPlayClick)
      ensures State() == old(State()).(showPlayer := true)
      ensures CurrentView() == View(ThumbnailWithPlayOverlay, true)
    {
      showPlayer := true;
    }

    /** The play button in the card's action row. */
    method OnPlayButtonClick()
      modifies this
      ensures State() == Step(old(State()), PlayButtonClick)
      ensures State() == old(State()).(showPlayer := true)
      ensures CurrentView() == old(CurrentView()).(playerOpen := true)
    {
      showPlayer := true;
    }

    /** The close button of the player modal; it exists only while the modal is open. */
    method OnCloseClick()
      requires CurrentView().playerOpen
      modifies this
      ensures State() == Step(old(State()), CloseClick)
      ensures State() == old(State()).(showPlayer := false)
      ensures CurrentView() == old(CurrentView()).(playerOpen := false)
    {
      showPlayer := false;
    }

    /** The delete button: the delete callback is called with this card's video when it was supplied. */
    method OnDeleteClick() returns (call: Option<Video>)
      ensures call.Some? <==> hasOnDelete
      ensures call.Some? ==> call.value == video
    {
      if hasOnDelete {
        call := Some(video);
      } else {
        call := None;
      }
    }

    /** The download button: the download callback gets the full video of this card's record and its title. */
    method OnDownloadClick() returns (call: DownloadRequest)
      ensures call.publicId == video.publicId && call.title == video.title
    {
      call := DownloadRequest(video.publicId, video.title);
    }
  }
}
