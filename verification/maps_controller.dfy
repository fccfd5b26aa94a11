/** The view model of the map page (the scope of MapsController): the user's
    own marker, the neighbour markers and map bounds rebuilt from each
    recommendation response, and the time gate that keeps two fits of the map
    to its bounds at least half a second apart. Coordinates are integers in
    units of 1e-7 degree; a popup message is reduced to the values its HTML
    template embeds. The recommendation service and the map widget are
    represented by what the scope sends them: the queries issued and the
    instants at which a fit was requested. */
module MapsController {
  import opened NameFormat

  /** Milliseconds that must pass between two fits. */
  const Delay := 500

  const InitialAge := 20
  const InitialLat := 515153660
  const InitialLng := -1109577
  const InitialZoom := 10

  /** What a marker's popup shows. */
  datatype Message =
    | CenterMessage(age: int)
    | NeighborMessage(image: nat, name: string, age: int)

  /** A Leaflet marker; neighbour markers are neither focused nor draggable. */
  datatype Marker = Marker(lat: int, lng: int, message: Message, focus: bool, draggable: bool)

  datatype LatLng = LatLng(lat: int, lng: int)

  /** One entry of the `result` list the recommendation service answers with. */
  datatype Neighbor = Neighbor(name: string, latitude: int, longitude: int, age: int)

  /** A request for recommendations around (lat, lng) for the given age. */
  datatype Query = Query(lat: int, lng: int, age: int)

  /** The name a neighbour's popup shows: its first comma made a space, then title cased. */
  function DisplayName(name: string): string {
    TitleCase(ReplaceFirst(name, ',', ' '))
  }

  /** The displayed name, position by position: only the first comma becomes a
      space, and the result is title cased. */
  lemma DisplayNameAt(name: string)
    ensures |DisplayName(name)| == |name|
    ensures forall i :: 0 <= i < |name| ==> DisplayName(name)[i] == TitledAt(ReplaceFirst(name, ',', ' '), i)
  {
    TitleCaseAt(ReplaceFirst(name, ',', ' '));
  }

  /** The marker for the response item shown with image number `image`. */
  function NeighborMarker(item: Neighbor, image: nat): Marker {
    Marker(item.latitude, item.longitude, NeighborMessage(image, DisplayName(item.name), item.age), false, false)
  }

  /** The markers a response adds, one per item in response order; item i shows image i + 1. */
  function NeighborMarkers(items: seq<Neighbor>): (r: seq<Marker>)
    ensures |r| == |items|
    ensures forall i :: 0 <= i < |items| ==> r[i] == NeighborMarker(items[i], i + 1)
  {
    if items == [] then []
    else NeighborMarkers(items[..|items| - 1]) + [NeighborMarker(items[|items| - 1], |items|)]
  }

  /** The points a response adds to the bounds, one per item in response order. */
  function NeighborBounds(items: seq<Neighbor>): (r: seq<LatLng>)
    ensures |r| == |items|
    ensures forall i :: 0 <= i < |items| ==> r[i] == LatLng(items[i].latitude, items[i].longitude)
  {
    if items == [] then []
    else NeighborBounds(items[..|items| - 1]) + [LatLng(items[|items| - 1].latitude, items[|items| - 1].longitude)]
  }

  /** Extending the response prefix by item i adds its marker and its point. */
  lemma NeighborsStep(items: seq<Neighbor>, i: nat)
    requires i < |items|
    ensures NeighborMarkers(items[..i + 1]) == NeighborMarkers(items[..i])
      + [Marker(items[i].latitude, items[i].longitude,
                NeighborMessage(i + 1, TitleCase(ReplaceFirst(items[i].name, ',', ' ')), items[i].age), false, false)]
    ensures NeighborBounds(items[..i + 1]) == NeighborBounds(items[..i]) + [LatLng(items[i].latitude, items[i].longitude)]
  {
    assert items[..i + 1][..i] == items[..i];
  }

  /** `lastBounding` for a history of fits: the instant of the latest, 0 before any. */
  function LastFit(fits: seq<int>): int {
    if fits == [] then 0 else fits[|fits| - 1]
  }

  /** The fit before fit i, as `lastBounding` held it: 0 before the first. */
  function Previous(fits: seq<int>, i: nat): int
    requires i < |fits|
  {
    if i == 0 then 0 else fits[i - 1]
  }

  /** Every fit comes more than Delay after the one before it (the first, after instant Delay). */
  ghost predicate Spaced(fits: seq<int>) {
    forall i {:trigger Previous(fits, i)} :: 0 <= i < |fits| ==> Previous(fits, i) + Delay < fits[i]
  }

  /** One call of fitBounds at instant `now`: it fits unless the last fit is no older than Delay. */
  function FitStep(fits: seq<int>, now: int): seq<int> {
    if LastFit(fits) >= now - Delay then fits else fits + [now]
  }

  /** The gate keeps the history spaced. */
  lemma FitStepSpaced(fits: seq<int>, now: int)
    requires Spaced(fits)
    ensures Spaced(FitStep(fits, now))
  {
    var r := FitStep(fits, now);
    if r != fits {
      forall i | 0 <= i < |r|
        ensures Previous(r, i) + Delay < r[i]
      {
        if i < |fits| {
          assert Previous(r, i) == Previous(fits, i);
        }
      }
    }
  }

  /** Right after a call, a second call at the same instant does nothing. */
  lemma FitStepIdempotent(fits: seq<int>, now: int)
    ensures FitStep(FitStep(fits, now), now) == FitStep(fits, now)
  {
  }

  /** In a spaced history any two fits are Delay apart for each fit between them. */
  lemma {:induction false} FitsApart(fits: seq<int>, i: nat, j: nat)
    requires Spaced(fits) && i < j < |fits|
    ensures fits[i] + (j - i) * Delay < fits[j]
    decreases j - i
  {
    assert Previous(fits, j) + Delay < fits[j];
    if i < j - 1 {
      FitsApart(fits, i, j - 1);
    }
  }

  class MapsScope {
    var age: int
    var userLat: int
    var userLng: int
    var zoom: int
    var centerMessage: Message
    /** Marker 0 is the user's own; the others are the latest response's neighbours. */
    var markers: seq<Marker>
    /** The user's point then the neighbours'; empty until the first response. */
    var bounds: seq<LatLng>
    var lastBounding: int
    /** Instants at which the map was asked to fit the bounds, oldest first. */
    var fits: seq<int>
    /** Queries sent to the recommendation service, oldest first. */
    var queries: seq<Query>

    ghost predicate Valid()
      reads this
    {
      |markers| >= 1 && Spaced(fits) && lastBounding == LastFit(fits)
    }

    /** The initial scope, which then asks for the first recommendations. */
    constructor ()
      ensures Valid()
      ensures age == InitialAge && userLat == InitialLat && userLng == InitialLng && zoom == InitialZoom
      ensures centerMessage == CenterMessage(InitialAge)
      ensures markers == [Marker(InitialLat, InitialLng, CenterMessage(InitialAge), true, true)]
      ensures bounds == [] && lastBounding == 0 && fits == []
      ensures queries == [Query(InitialLat, InitialLng, InitialAge)]
    {
      age := InitialAge;
      userLat := InitialLat;
      userLng := InitialLng;
      zoom := InitialZoom;
      centerMessage := CenterMessage(InitialAge);
      markers := [Marker(InitialLat, InitialLng, CenterMessage(InitialAge), true, true)];
      bounds := [];
      lastBounding := 0;
      fits := [];
      queries := [];
      new;
      FetchRecommendations();
    }

    /** fitBounds at instant `now`: nothing if the last fit is at most Delay old, otherwise a fit now. */
    method FitBounds(now: int)
      requires Valid()
      modifies this`lastBounding, this`fits
      ensures Valid()
      ensures fits == FitStep(old(fits), now) && lastBounding == LastFit(fits)
      ensures old(lastBounding) >= now - Delay ==> lastBounding == old(lastBounding) && fits == old(fits)
      ensures old(lastBounding) < now - Delay ==> lastBounding == now
    {
      if lastBounding >= now - Delay {
        return;
      }
      FitStepSpaced(fits, now);
      lastBounding := now;
      fits := fits + [now];
    }

    /** fetchRecommendations: a query for the user's position and age. */
    method FetchRecommendations()
      modifies this`queries
      ensures queries == old(queries) + [Query(userLat, userLng, age)]
    {
      queries := queries + [Query(userLat, userLng, age)];
    }

    /** The response handler: keep the user's marker, add one marker and one
        bounds point per neighbour in response order, then fit the map. */
    method OnRecommendations(items: seq<Neighbor>, now: int)
      requires Valid()
      modifies this`markers, this`bounds, this`lastBounding, this`fits
      ensures Valid()
      ensures |markers| == |items| + 1 && markers[0] == old(markers[0])
      ensures markers[1..] == NeighborMarkers(items)
      ensures |bounds| == |items| + 1 && bounds[0] == LatLng(userLat, userLng)
      ensures bounds[1..] == NeighborBounds(items)
      ensures fits == FitStep(old(fits), now)
    {
      markers := markers[..1];
      bounds := [LatLng(userLat, userLng)];
      PushNeighbors(items);
      FitBounds(now);
    }

    /** The loop of the response handler: push each item's point onto the
        bounds and its marker onto the markers. */
    method PushNeighbors(items: seq<Neighbor>)
      modifies this`markers, this`bounds
      ensures markers == old(markers) + NeighborMarkers(items)
      ensures bounds == old(bounds) + NeighborBounds(items)
    {
      var i := 0;
      while i < |items|
        invariant 0 <= i <= |items|
        invariant markers == old(markers) + NeighborMarkers(items[..i])
        invariant bounds == old(bounds) + NeighborBounds(items[..i])
      {
        var item := items[i];
        var name := ReplaceFirst(item.name, ',', ' ');
        NeighborsStep(items, i);
        bounds := bounds + [LatLng(item.latitude, item.longitude)];
        markers := markers + [Marker(item.latitude, item.longitude, NeighborMessage(i + 1, TitleCase(name), item.age), false, false)];
        i := i + 1;
      }
      assert items[..i] == items;
    }

    /** ageChange: marker 0 shows the new age; its position is kept. */
    method AgeChange()
      requires Valid()
      modifies this`centerMessage, this`markers, this`queries
      ensures Valid()
      ensures centerMessage == CenterMessage(age)
      ensures markers == old(markers)[0 := old(markers[0]).(message := CenterMessage(age))]
      ensures queries == old(queries) + [Query(userLat, userLng, age)]
    {
      centerMessage := CenterMessage(age);
      markers := markers[0 := markers[0].(message := centerMessage)];
      FetchRecommendations();
    }

    /** latChange: marker 0 moves to the user's latitude; nothing else about it changes. */
    method LatChange()
      requires Valid()
      modifies this`markers, this`queries
      ensures Valid()
      ensures markers == old(markers)[0 := old(markers[0]).(lat := userLat)]
      ensures queries == old(queries) + [Query(userLat, userLng, age)]
    {
      markers := markers[0 := markers[0].(lat := userLat)];
      FetchRecommendations();
    }

    /** lngChange: marker 0 moves to the user's longitude; nothing else about it changes. */
    method LngChange()
      requires Valid()
      modifies this`markers, this`queries
      ensures Valid()
      ensures markers == old(markers)[0 := old(markers[0]).(lng := userLng)]
      ensures queries == old(queries) + [Query(userLat, userLng, age)]
    {
      markers := markers[0 := markers[0].(lng := userLng)];
      FetchRecommendations();
    }

    /** The marker's dragend event with the dragged marker at (lat, lng): the
        user follows it, marker 0 takes both coordinates, and three identical
        queries go out (from latChange, lngChange and the handler itself). */
    method OnDragEnd(lat: int, lng: int)
      requires Valid()
      modifies this`userLat, this`userLng, this`markers, this`queries
      ensures Valid()
      ensures userLat == lat && userLng == lng
      ensures markers == old(markers)[0 := old(markers[0]).(lat := lat, lng := lng)]
      ensures queries == old(queries) + [Query(lat, lng, age), Query(lat, lng, age), Query(lat, lng, age)]
    {
      userLng := lng;
      userLat := lat;
      LatChange();
      LngChange();
      FetchRecommendations();
    }
  }
}
