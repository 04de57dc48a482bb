/** The variadic `Min` and `Max` helpers of the colour library.
    `MinOf` and `MaxOf` are the specification: a left-to-right fold that
    gives 0 for an empty sequence. The methods `Min` and `Max` are the
    running-accumulator loops of the library, proved to compute them. */
module MinMax {

  /** The smallest value of `fs`, or 0 when `fs` is empty. */
  function MinOf(fs: seq<real>): (m: real)
    ensures fs == [] ==> m == 0.0
    ensures fs != [] ==> m in fs
    ensures forall i :: 0 <= i < |fs| ==> m <= fs[i]
  {
    if |fs| == 0 then 0.0
    else if |fs| == 1 then fs[0]
    else
      var init := MinOf(fs[..|fs| - 1]);
      assert forall i :: 0 <= i < |fs| - 1 ==> fs[..|fs| - 1][i] == fs[i];
      if fs[|fs| - 1] < init then fs[|fs| - 1] else init
  }

  /** The largest value of `fs`, or 0 when `fs` is empty. */
  function MaxOf(fs: seq<real>): (m: real)
    ensures fs == [] ==> m == 0.0
    ensures fs != [] ==> m in fs
    ensures forall i :: 0 <= i < |fs| ==> fs[i] <= m
  {
    if |fs| == 0 then 0.0
    else if |fs| == 1 then fs[0]
    else
      var init := MaxOf(fs[..|fs| - 1]);
      assert forall i :: 0 <= i < |fs| - 1 ==> fs[..|fs| - 1][i] == fs[i];
      if fs[|fs| - 1] > init then fs[|fs| - 1] else init
  }

  /** The library's `Min`: 0 on no arguments, otherwise a running minimum
      that is replaced whenever a strictly smaller value comes along. */
  method Min(fs: seq<real>) returns (m: real)
    ensures m == MinOf(fs)
    ensures fs == [] ==> m == 0.0
    ensures fs != [] ==> m in fs && forall i :: 0 <= i < |fs| ==> m <= fs[i]
  {
    if |fs| == 0 {
      return 0.0;
    }
    m := fs[0];
    for i := 1 to |fs|
      invariant m == MinOf(fs[..i])
    {
      assert fs[..i + 1][..i] == fs[..i];
      if fs[i] < m {
        m := fs[i];
      }
    }
    assert fs[..|fs|] == fs;
  }

  /** The library's `Max`: 0 on no arguments, otherwise a running maximum
      that is replaced whenever a strictly larger value comes along. */
  method Max(fs: seq<real>) returns (m: real)
    ensures m == MaxOf(fs)
    ensures fs == [] ==> m == 0.0
    ensures fs != [] ==> m in fs && forall i :: 0 <= i < |fs| ==> fs[i] <= m
  {
    if |fs| == 0 {
      return 0.0;
    }
    m := fs[0];
    for i := 1 to |fs|
      invariant m == MaxOf(fs[..i])
    {
      assert fs[..i + 1][..i] == fs[..i];
      if fs[i] > m {
        m := fs[i];
      }
    }
    assert fs[..|fs|] == fs;
  }
}
