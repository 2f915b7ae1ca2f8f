/**
 * The site-wide audio controller (src/context/AudioContext.tsx): a fixed
 * playlist cycled forwards and backwards, a play/pause toggle, a volume
 * setting and the effect that swaps the audio source on a track change.
 * The browser's audio element is reduced to its `paused` flag and the
 * index of the track whose address it holds; volume is an opaque value.
 */
module AudioPlayer {

  datatype Track = Track(title: string, url: string)

  /**
   * The playlist. The first two addresses are relative to the site's
   * deployment base, which is left out here.
   */
  const Tracks: seq<Track> := [
    Track("Off My Skin", "music/Off My Skin.mp3"),
    Track("Shadow in My Veins", "music/Shadow in My Veins.mp3"),
    Track("Agam Lofi #1", "https://stream.zeno.fm/0r0xa792kwzuv"),
    Track("Cyber Dreams", "https://www.soundhelix.com/examples/mp3/SoundHelix-Song-1.mp3")]

  datatype Player = Player(
    trackIndex: nat,  // the selected track, whose title is shown
    paused: bool,     // the audio element's paused flag
    volume: real,
    loaded: nat)      // the track whose address the audio element holds

  /** On mount: first track selected and loaded, paused, half volume. */
  const Initial := Player(0, true, 0.5, 0)

  /**
   * Reachable states: both indices inside the playlist, and the loaded
   * track is the selected one unless the first track is selected.
   */
  predicate Valid(p: Player) {
    && p.trackIndex < |Tracks|
    && p.loaded < |Tracks|
    && (p.trackIndex > 0 ==> p.loaded == p.trackIndex)
  }

  lemma InitialIsValid()
    ensures Valid(Initial)
  {
  }

  // ---------------------------------------------------------------------
  // Index arithmetic
  // ---------------------------------------------------------------------

  /** One step forward, wrapping from the last track to the first. */
  function NextIndex(i: nat): (r: nat)
    ensures r < |Tracks|
    ensures i < |Tracks| - 1 ==> r == i + 1
    ensures i == |Tracks| - 1 ==> r == 0
  {
    (i + 1) % |Tracks|
  }

  /** One step back, wrapping from the first track to the last. */
  function PrevIndex(i: nat): (r: nat)
    ensures r < |Tracks|
    ensures 0 < i < |Tracks| ==> r == i - 1
    ensures i == 0 ==> r == |Tracks| - 1
  {
    (i - 1 + |Tracks|) % |Tracks|
  }

  lemma NextPrevRoundTrip(i: nat)
    requires i < |Tracks|
    ensures PrevIndex(NextIndex(i)) == i
    ensures NextIndex(PrevIndex(i)) == i
  {
  }

  function NextTimes(i: nat, n: nat): nat {
    if n == 0 then i else NextIndex(NextTimes(i, n - 1))
  }

  /** n steps forward land n places further round the playlist. */
  lemma {:induction false} NextTimesIsRotation(i: nat, n: nat)
    requires i < |Tracks|
    ensures NextTimes(i, n) == (i + n) % |Tracks|
  {
    if n > 0 {
      NextTimesIsRotation(i, n - 1);
      var k := |Tracks|;
      assert (i + n - 1) % k + 1 == (i + n) % k || ((i + n - 1) % k == k - 1 && (i + n) % k == 0);
    }
  }

  /** A full lap of the playlist returns to the starting track. */
  lemma FullLapReturns(i: nat)
    requires i < |Tracks|
    ensures NextTimes(i, |Tracks|) == i
  {
    NextTimesIsRotation(i, |Tracks|);
    assert (i + |Tracks|) % |Tracks| == i;
  }

  // ---------------------------------------------------------------------
  // Controls
  // ---------------------------------------------------------------------

  /**
   * The effect run after the selected index changes: the audio element
   * is pointed at the new track, and keeps playing if it was, but only
   * for an index above zero.
   */
  function OnTrackChange(p: Player): (r: Player)
    ensures r.trackIndex == p.trackIndex && r.paused == p.paused && r.volume == p.volume
    ensures p.trackIndex > 0 ==> r.loaded == p.trackIndex
    ensures p.trackIndex == 0 ==> r.loaded == p.loaded
  {
    if p.trackIndex > 0 then p.(loaded := p.trackIndex) else p
  }

  function Next(p: Player): (r: Player)
    ensures r.trackIndex == NextIndex(p.trackIndex)
    ensures r.paused == p.paused && r.volume == p.volume
    ensures Valid(p) ==> Valid(r)
  {
    OnTrackChange(p.(trackIndex := NextIndex(p.trackIndex)))
  }

  function Prev(p: Player): (r: Player)
    ensures r.trackIndex == PrevIndex(p.trackIndex)
    ensures r.paused == p.paused && r.volume == p.volume
    ensures Valid(p) ==> Valid(r)
  {
    OnTrackChange(p.(trackIndex := PrevIndex(p.trackIndex)))
  }

  /** Play when paused, pause when playing. */
  function TogglePlay(p: Player): (r: Player)
    ensures r.paused != p.paused
    ensures r == p.(paused := r.paused)
  {
    p.(paused := !p.paused)
  }

  lemma ToggleTwiceRestores(p: Player)
    ensures TogglePlay(TogglePlay(p)) == p
  {
  }

  /** The volume changes and nothing else; in particular the track is not reset. */
  function SetVolume(p: Player, v: real): (r: Player)
    ensures r.volume == v
    ensures r.trackIndex == p.trackIndex && r.paused == p.paused && r.loaded == p.loaded
  {
    p.(volume := v)
  }

  /**
   * The title shown for the selected track. Titles are distinct, so the
   * title shown names exactly one track of the playlist.
   */
  function CurrentTitle(p: Player): (r: string)
    requires p.trackIndex < |Tracks|
    ensures forall k :: 0 <= k < |Tracks| ==> (Tracks[k].title == r <==> k == p.trackIndex)
  {
    Tracks[p.trackIndex].title
  }

  /** Stepping forward then back, or back then forward, restores the selection. */
  lemma NextPrevRestoresSelection(p: Player)
    requires Valid(p)
    ensures Prev(Next(p)).trackIndex == p.trackIndex
    ensures Next(Prev(p)).trackIndex == p.trackIndex
    ensures CurrentTitle(Prev(Next(p))) == CurrentTitle(p)
  {
    NextPrevRoundTrip(p.trackIndex);
  }

  /**
   * Wrapping forward onto the first track shows its title but leaves the
   * last track's address in the audio element.
   */
  lemma WrapToFirstKeepsOldSource(paused: bool, v: real)
    ensures
      var p := Next(Player(3, paused, v, 3));
      CurrentTitle(p) == "Off My Skin" && Tracks[p.loaded].title == "Cyber Dreams"
  {
  }

  // ---------------------------------------------------------------------
  // Runs of controls
  // ---------------------------------------------------------------------

  datatype Control = NextControl | PrevControl | ToggleControl | VolumeControl(v: real)

  function Apply(p: Player, c: Control): Player {
    match c
    case NextControl => Next(p)
    case PrevControl => Prev(p)
    case ToggleControl => TogglePlay(p)
    case VolumeControl(v) => SetVolume(p, v)
  }

  function Run(p: Player, cs: seq<Control>): Player
    decreases |cs|
  {
    if cs == [] then p else Run(Apply(p, cs[0]), cs[1..])
  }

  /**
   * Whatever the listener does, the title lookup stays inside the
   * playlist and the audio element plays the selected track whenever a
   * track other than the first is selected.
   */
  lemma {:induction false} RunPreservesValid(p: Player, cs: seq<Control>)
    requires Valid(p)
    ensures Valid(Run(p, cs))
    decreases |cs|
  {
    if cs != [] {
      RunPreservesValid(Apply(p, cs[0]), cs[1..]);
    }
  }

  /** Volume changes and play/pause never move the selection. */
  lemma {:induction false} OnlySkipsMoveSelection(p: Player, cs: seq<Control>)
    requires forall k :: 0 <= k < |cs| ==> !cs[k].NextControl? && !cs[k].PrevControl?
    ensures Run(p, cs).trackIndex == p.trackIndex && Run(p, cs).loaded == p.loaded
    decreases |cs|
  {
    if cs != [] {
      OnlySkipsMoveSelection(Apply(p, cs[0]), cs[1..]);
    }
  }
}
