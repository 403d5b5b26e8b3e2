/** The radio demo's Radio object: its stations, the index of the station last
    told to play, and per station whether a Howl handle exists, whether that
    handle plays and whether the row is displayed live. Each method is proved
    to move the object's state exactly as the matching function of RadioSpec. */
module RadioController {
  import S = RadioSpec

  /** Configuration of one station: its call sign, its description and the
      candidate stream URLs a handle is created from. */
  datatype StationInfo = StationInfo(freq: string, title: string, src: seq<string>)

  class Radio {
    const stations: seq<StationInfo>
    var index: int
    var loaded: seq<bool>
    var playing: seq<bool>
    var active: seq<bool>
    /** How many handles each station has had constructed for it. */
    ghost var created: seq<nat>

    /** The object's state as a value of the specification. */
    ghost function State(): S.RadioState
      reads this
    {
      S.RadioState(loaded, playing, active, index, created)
    }

    ghost predicate Valid()
      reads this
    {
      S.WellFormed(State()) && S.Count(State()) == |stations|
    }

    /** new Radio(stations): index 0, every station still without a handle
        and no row lit. */
    constructor (stations: seq<StationInfo>)
      ensures Valid() && this.stations == stations
      ensures State() == S.Initial(|stations|)
    {
      this.stations := stations;
      index := 0;
      loaded := seq(|stations|, _ => false);
      playing := seq(|stations|, _ => false);
      active := seq(|stations|, _ => false);
      created := seq(|stations|, _ => 0);
    }

    /** toggleStationDisplay(i, on): light or darken row i. */
    method ToggleStationDisplay(i: int, on: bool)
      requires Valid() && 0 <= i < |stations|
      modifies this
      ensures Valid() && State() == S.AfterToggle(old(State()), i, on)
    {
      active := active[i := on];
    }

    /** play(index): the station named by `index`, or the current one when no
        number is given. Its handle is created only if it has none. */
    method Play(index: S.Option<int>)
      requires Valid() && 0 <= S.Target(State(), index) < |stations|
      modifies this
      ensures Valid() && State() == S.AfterPlay(old(State()), index)
      ensures S.HandlesCounted(old(State())) ==> S.HandlesCounted(State())
    {
      var target := if index.Some? then index.value else this.index;
      if !loaded[target] {
        loaded := loaded[target := true];
        created := created[target := created[target] + 1];
      }
      playing := playing[target := true];
      ToggleStationDisplay(target, true);
      this.index := target;
    }

    /** stop(): darken row `index` and stop its handle if there is one. */
    method Stop()
      requires Valid() && 0 <= index < |stations|
      modifies this
      ensures Valid() && State() == S.AfterStop(old(State()))
    {
      var hasSound := loaded[index];
      ToggleStationDisplay(index, false);
      if hasSound {
        playing := playing[index := false];
      }
    }

    /** The click responder of row i: stop whatever is current, then play i
        unless i was the station playing. */
    method Click(i: int)
      requires Valid() && 0 <= i < |stations|
      modifies this
      ensures Valid() && State() == S.AfterClick(old(State()), i)
      ensures S.Invariant(old(State())) ==> S.Invariant(State())
      ensures S.HandlesCounted(old(State())) ==> S.HandlesCounted(State())
    {
      ghost var before := State();
      var isNotPlaying := loaded[i] && !playing[i];
      Stop();
      if isNotPlaying || !loaded[i] {
        Play(S.Some(i));
      }
      if S.Invariant(before) {
        S.ClickPreservesInvariant(before, i);
      }
    }

    /** Station i's handle stops by itself: its stream ended or failed. */
    method StreamEnded(i: int)
      requires Valid() && 0 <= i < |stations|
      modifies this
      ensures Valid() && State() == S.AfterStreamEnd(old(State()), i)
    {
      playing := playing[i := false];
    }
  }
}
