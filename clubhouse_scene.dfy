/**
  The clubhouse page (src/components/ClubhouseScene.tsx): a triple click
  on the clubhouse fetches the daily fact and slides to the facts panel;
  a triple click on the facts panel slides back. Three clicks count as a
  triple click only if each follows the previous within a timeout.

  The browser's timers and the fetch are events here: `Expire(id)` is the
  timeout callback of timer `id` running, and `FetchSucceeded` /
  `FetchFailed` are the two ways the awaited request can end.
*/
module ClubhouseScene {
  import opened Options

  datatype View = Clubhouse | Loading | Facts

  /** The fields of the daily-fact response the page reads. */
  datatype FactPayload = FactPayload(fact: string, starWars: string,
                                     imageUrl: Option<string>, date: Option<string>)

  /** What happened to the click counter: a click, or its timer running out. */
  datatype CounterEvent = Click | Expiry

  /** The clicks since the last timer expiry. */
  function TrailingClicks(history: seq<CounterEvent>): nat {
    if history == [] then 0
    else if history[|history| - 1] == Expiry then 0
    else TrailingClicks(history[..|history| - 1]) + 1
  }

  /** How one event changes the count of trailing clicks. */
  lemma TrailingStep(history: seq<CounterEvent>)
    ensures TrailingClicks(history + [Click]) == TrailingClicks(history) + 1
    ensures TrailingClicks(history + [Expiry]) == 0
  {
    assert (history + [Click])[..|history|] == history;
  }

  /** Counting modulo 3: one more click wraps the counter from 2 to 0. */
  lemma CountStep(t: nat, count: int)
    requires count == t % 3
    ensures count == 2 <==> (t + 1) % 3 == 0
    ensures count < 2 ==> (t + 1) % 3 == count + 1
  {
  }

  /** The timer ids armed in the browser for a pending-timer reference. */
  function Armed(timer: Option<nat>): set<nat> {
    if timer.Some? then {timer.value} else {}
  }

  class Scene {
    var view: View
    var fact: string
    var starWars: string
    var imageUrl: Option<string>
    var date: Option<string>
    /** `clickCountRef` and `clickTimerRef`. */
    var clickCount: int
    var clickTimer: Option<nat>
    /** The browser side: the timers armed and the id the next one gets. */
    var armed: set<nat>
    var nextTimerId: nat
    /** A fetch started by a clubhouse trigger has not finished yet. */
    var awaitingFact: bool
    ghost var history: seq<CounterEvent>

    /** The counter is 0, 1 or 2; a timer is pending exactly while it is
        positive, and it is the only timer armed; the counter is the number
        of clicks since the last expiry, modulo 3; a fetch is awaited
        exactly while the loading screen shows. */
    ghost predicate Valid()
      reads this
    {
      && 0 <= clickCount <= 2
      && (clickCount == 0 <==> clickTimer.None?)
      && armed == Armed(clickTimer)
      && (clickTimer.Some? ==> 0 < clickTimer.value < nextTimerId)
      && nextTimerId >= 1
      && clickCount == TrailingClicks(history) % 3
      && (awaitingFact <==> view == Loading)
    }

    /** The facts panel is on screen. */
    predicate ShowFacts()
      reads this
    {
      view == Facts
    }

    constructor ()
      ensures Valid()
      ensures view == Clubhouse && fact == "" && starWars == "" && imageUrl == None && date == None
      ensures clickCount == 0 && clickTimer == None && armed == {} && history == []
    {
      view := Clubhouse;
      fact := "";
      starWars := "";
      imageUrl := None;
      date := None;
      clickCount := 0;
      clickTimer := None;
      armed := {};
      nextTimerId := 1;
      awaitingFact := false;
      history := [];
    }

    /**
      `handleTripleClick`: count a click. The third click in a row fires
      (`triggered`), resets the counter and cancels the pending timer;
      any other click cancels the pending timer and arms a fresh one.
    */
    method TripleClick() returns (triggered: bool)
      requires Valid()
      modifies this
      ensures Valid()
      ensures history == old(history) + [Click]
      ensures triggered <==> TrailingClicks(history) % 3 == 0
      ensures triggered <==> old(clickCount) == 2
      ensures triggered ==> clickCount == 0 && clickTimer.None? && armed == {}
      ensures !triggered ==> clickCount == old(clickCount) + 1
      ensures !triggered ==>
                clickTimer.Some? && clickTimer.value !in old(armed) && armed == {clickTimer.value}
      ensures view == old(view) && fact == old(fact) && starWars == old(starWars)
      ensures imageUrl == old(imageUrl) && date == old(date) && awaitingFact == old(awaitingFact)
    {
      TrailingStep(history);
      CountStep(TrailingClicks(history), clickCount);
      clickCount := clickCount + 1;
      history := history + [Click];
      if clickCount == 3 {
        clickCount := 0;
        if clickTimer.Some? {
          armed := armed - {clickTimer.value};
          clickTimer := None;
        }
        return true;
      }
      if clickTimer.Some? {
        armed := armed - {clickTimer.value};
      }
      var id := nextTimerId;
      nextTimerId := nextTimerId + 1;
      armed := armed + {id};
      clickTimer := Some(id);
      return false;
    }

    /** The pending timer `id` runs out: the clicks so far no longer count. */
    method Expire(id: nat)
      requires Valid() && id in armed
      modifies this
      ensures Valid()
      ensures history == old(history) + [Expiry]
      ensures clickCount == 0 && clickTimer == None && armed == {}
      ensures view == old(view) && fact == old(fact) && starWars == old(starWars)
      ensures imageUrl == old(imageUrl) && date == old(date) && awaitingFact == old(awaitingFact)
    {
      clickCount := 0;
      clickTimer := None;
      armed := armed - {id};
      history := history + [Expiry];
    }

    /** A click on the clubhouse (shown whenever the loading screen is not):
        a triple click starts loading the daily fact. */
    method ClubhouseClick() returns (triggered: bool)
      requires Valid() && view != Loading
      modifies this
      ensures Valid()
      ensures history == old(history) + [Click]
      ensures triggered <==> TrailingClicks(history) % 3 == 0
      ensures triggered ==> view == Loading && imageUrl == None && awaitingFact
      ensures !triggered ==> view == old(view) && imageUrl == old(imageUrl)
      ensures fact == old(fact) && starWars == old(starWars) && date == old(date)
    {
      triggered := TripleClick();
      if triggered {
        view := Loading;
        imageUrl := None;
        awaitingFact := true;
      }
    }

    /** The fetch answered: the facts panel shows the payload; an empty
        image address counts as none. */
    method FetchSucceeded(data: FactPayload)
      requires Valid() && awaitingFact
      modifies this
      ensures Valid()
      ensures view == Facts && ShowFacts() && !awaitingFact
      ensures fact == data.fact && starWars == data.starWars && date == data.date
      ensures imageUrl == (if data.imageUrl == Some("") then None else data.imageUrl)
      ensures clickCount == old(clickCount) && clickTimer == old(clickTimer) && history == old(history)
    {
      fact := data.fact;
      starWars := data.starWars;
      imageUrl := if data.imageUrl.Some? && data.imageUrl.value != "" then data.imageUrl else None;
      date := data.date;
      view := Facts;
      awaitingFact := false;
    }

    /** The fetch or its decoding failed: back to the clubhouse. */
    method FetchFailed()
      requires Valid() && awaitingFact
      modifies this
      ensures Valid()
      ensures view == Clubhouse && !ShowFacts() && !awaitingFact
      ensures fact == old(fact) && starWars == old(starWars) && imageUrl == old(imageUrl)
      ensures date == old(date) && clickCount == old(clickCount) && history == old(history)
      ensures clickTimer == old(clickTimer) && armed == old(armed)
    {
      view := Clubhouse;
      awaitingFact := false;
    }

    /** A click on the facts panel (shown only in the facts view): a triple
        click slides back to the clubhouse. */
    method FactsClick() returns (triggered: bool)
      requires Valid() && view == Facts
      modifies this
      ensures Valid()
      ensures history == old(history) + [Click]
      ensures triggered <==> TrailingClicks(history) % 3 == 0
      ensures triggered ==> view == Clubhouse && !ShowFacts()
      ensures !triggered ==> view == Facts
      ensures fact == old(fact) && starWars == old(starWars)
      ensures imageUrl == old(imageUrl) && date == old(date)
    {
      triggered := TripleClick();
      if triggered {
        view := Clubhouse;
      }
    }
  }

  /** Three clicks with no expiry between them fire, counted from a reset. */
  lemma ThirdClickFires(history: seq<CounterEvent>)
    requires TrailingClicks(history) % 3 == 0
    ensures TrailingClicks(history + [Click]) % 3 == 1
    ensures TrailingClicks(history + [Click, Click]) % 3 == 2
    ensures TrailingClicks(history + [Click, Click, Click]) % 3 == 0
  {
    TrailingStep(history);
    TrailingStep(history + [Click]);
    assert history + [Click] + [Click] == history + [Click, Click];
    TrailingStep(history + [Click, Click]);
    assert history + [Click, Click] + [Click] == history + [Click, Click, Click];
  }

  /** An expiry between two clicks means they never fire together. */
  lemma ExpiryForgets(history: seq<CounterEvent>)
    ensures TrailingClicks(history + [Click, Expiry, Click, Click]) % 3 == 2
  {
    var h := history + [Click, Expiry];
    TrailingStep(history + [Click]);
    assert history + [Click] + [Expiry] == h;
    TrailingStep(h);
    TrailingStep(h + [Click]);
    assert h + [Click] + [Click] == history + [Click, Expiry, Click, Click];
  }
}
