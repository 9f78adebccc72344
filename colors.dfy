/**
 * `alphasize`: replaces the alpha channel of every color in a list. A color is
 * any sequence of components; replacing its alpha unpacks it as exactly
 * (r, g, b, alpha), which fails for a color of any other length.
 */
module Colors {

  import opened Wrappers

  /** A color as its components; a well-formed one is (r, g, b, alpha). */
  type Color = seq<real>

  /** The unpacking error: the first color that is not four components long. */
  datatype Error = WrongComponentCount(index: nat, length: nat)

  /** The index of the first color that does not have four components, or |colors|. */
  function FirstMalformed(colors: seq<Color>): (k: nat)
    ensures k <= |colors|
    ensures k < |colors| ==> |colors[k]| != 4
    ensures forall j :: 0 <= j < k ==> |colors[j]| == 4
  {
    if colors == [] then 0
    else if |colors[0]| != 4 then 0
    else 1 + FirstMalformed(colors[1..])
  }

  /**
   * A negative `alpha` returns `colors` unchanged, whatever their lengths.
   * Otherwise the result is an error exactly when some color does not have four
   * components, naming the first one; and when every color has four, each keeps
   * its r, g and b and takes `alpha` as its alpha component.
   */
  function Alphasize(colors: seq<Color>, alpha: real): (r: Result<seq<Color>, Error>)
    ensures alpha < 0.0 ==> r == Ok(colors)
    ensures alpha >= 0.0 ==> (r.Err? <==> exists i :: 0 <= i < |colors| && |colors[i]| != 4)
    ensures r.Err? ==> var k := r.error.index;
      && k < |colors| && r.error.length == |colors[k]| != 4
      && forall j :: 0 <= j < k ==> |colors[j]| == 4
    ensures alpha >= 0.0 && r.Ok? ==> |r.value| == |colors| && forall i :: 0 <= i < |colors| ==>
      r.value[i] == [colors[i][0], colors[i][1], colors[i][2], alpha]
  {
    if alpha < 0.0 then Ok(colors)
    else
      var k := FirstMalformed(colors);
      if k < |colors| then Err(WrongComponentCount(k, |colors[k]|))
      else Ok(seq(|colors|, i requires 0 <= i < |colors| =>
        [colors[i][0], colors[i][1], colors[i][2], alpha]))
  }

  /** After a non-negative alpha, any earlier successful alphasize has no effect. */
  lemma AlphasizeLastWins(colors: seq<Color>, a1: real, a2: real)
    requires a2 >= 0.0
    requires Alphasize(colors, a1).Ok?
    ensures Alphasize(Alphasize(colors, a1).value, a2) == Alphasize(colors, a2)
  {
    if a1 >= 0.0 {
      var once := Alphasize(colors, a1).value;
      assert FirstMalformed(colors) == |colors|;
      assert forall i :: 0 <= i < |once| ==> |once[i]| == 4;
      var twice, direct := Alphasize(once, a2), Alphasize(colors, a2);
      assert twice.Ok? && direct.Ok?;
      forall i | 0 <= i < |colors|
        ensures twice.value[i] == direct.value[i]
      {
        assert once[i][..3] == colors[i][..3];
      }
      assert twice.value == direct.value;
    }
  }

  /** Alphasizing twice with the same alpha is the same as once. */
  lemma AlphasizeIdempotent(colors: seq<Color>, alpha: real)
    requires Alphasize(colors, alpha).Ok?
    ensures Alphasize(Alphasize(colors, alpha).value, alpha) == Alphasize(colors, alpha)
  {
    if alpha >= 0.0 {
      AlphasizeLastWins(colors, alpha, alpha);
    }
  }

  /** Four-component colors that already carry the alpha are unchanged. */
  lemma AlphasizeOwnAlpha(colors: seq<Color>, alpha: real)
    requires alpha >= 0.0
    requires forall i :: 0 <= i < |colors| ==> |colors[i]| == 4 && colors[i][3] == alpha
    ensures Alphasize(colors, alpha) == Ok(colors)
  {
    var r := Alphasize(colors, alpha);
    assert r.Ok?;
    forall i | 0 <= i < |colors|
      ensures r.value[i] == colors[i]
    {
      assert colors[i] == [colors[i][0], colors[i][1], colors[i][2], colors[i][3]];
    }
    assert r.value == colors;
  }
}
