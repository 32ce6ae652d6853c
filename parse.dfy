/** `parseToSkiMap`: the numbers of the input text become the width, the
    height and the elevations. */
module Parse {
  import opened JsValues
  import opened Grid

  /** `parseToSkiMap` on the numbers `parseInt` produced: the first two are
      `x` and `y`, and `slice(2, length - 1)` drops them and the last one
      (the token after the final line break). With fewer than two numbers
      the width or the height is `undefined`, which is `None` here. */
  function ParseToSkiMap(values: seq<int>): (r: Option<SkiMap>)
    ensures r.None? <==> |values| < 2
    ensures r.Some? ==> r.value.x == values[0] && r.value.y == values[1]
    ensures r.Some? ==> |r.value.skiMap| == if |values| >= 3 then |values| - 3 else 0
    ensures r.Some? ==> forall i :: 0 <= i < |r.value.skiMap| ==> r.value.skiMap[i] == values[i + 2]
  {
    if |values| < 2 then None
    else Some(SkiMap(values[0], values[1], if |values| >= 3 then values[2..|values| - 1] else []))
  }

  /** The numbers of a grid file: width, height, the elevations row by row
      and one trailing token. */
  function Render(m: SkiMap, trailing: int): (values: seq<int>)
    ensures |values| == |m.skiMap| + 3
  {
    [m.x, m.y] + m.skiMap + [trailing]
  }

  /** Parsing a rendered grid gives the grid back, whatever the trailing
      token. */
  lemma ParseRender(m: SkiMap, trailing: int)
    ensures ParseToSkiMap(Render(m, trailing)) == Some(m)
  {
    var values := Render(m, trailing);
    assert values[2..|values| - 1] == m.skiMap;
  }
}
