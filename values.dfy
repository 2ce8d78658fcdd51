/** Four-state logic values as the decoder sees them, and the normalisation
    that collapses whatever the trace parser captured into one of them. */
module Values {

  datatype Option<T> = None | Some(value: T)

  /** One captured value as the trace parser hands it over: absent, or the
      text of the captured object. */
  datatype Raw = Missing | Text(s: string)

  /** The four logic states: `'0'`, `'1'`, unknown `'x'` and released `'z'`. */
  datatype Value = Zero | One | X | Z

  predicate IsBit(v: Value) { v == Zero || v == One }

  /** The one-character spelling of a value in decoded strings such as the ACK. */
  function Char(v: Value): char
  {
    match v
    case Zero => '0'
    case One => '1'
    case X => 'x'
    case Z => 'z'
  }

  /** Keeps a defined bit and reads anything else as unknown (the
      `v if v in ('0','1') else 'x'` clamp). */
  function Clamp(v: Value): (r: Value)
    ensures r != Z && IsBit(r) == IsBit(v)
    ensures r == X <==> !IsBit(v)
    ensures IsBit(v) ==> r == v
  {
    if IsBit(v) then v else X
  }

  /** Collapses a captured value to one of the four states: an absent value is
      unknown, upper-case X/Z become lower-case, and a `b`-prefixed vector
      literal is unwrapped only when exactly one state character follows. */
  function Normalize(r: Raw): (v: Value)
    ensures r.Missing? ==> v == X
    ensures r.Text? ==> (v == Zero <==> r.s == "0" || r.s == "b0")
    ensures r.Text? ==> (v == One <==> r.s == "1" || r.s == "b1")
    ensures r.Text? ==> (v == Z <==> r.s in {"z", "Z", "bz", "bZ"})
  {
    match r
    case Missing => X
    case Text(s) => NormalizeText(s)
  }

  function NormalizeText(s: string): (v: Value)
    ensures v == Zero <==> s == "0" || s == "b0"
    ensures v == One <==> s == "1" || s == "b1"
    ensures v == Z <==> s in {"z", "Z", "bz", "bZ"}
    decreases |s|
  {
    if s == "0" then Zero
    else if s == "1" then One
    else if s == "x" || s == "X" then X
    else if s == "z" || s == "Z" then Z
    else if |s| >= 2 && s[0] == 'b' then
      var bits := s[1..];
      assert s == [s[0]] + bits;
      assert "bz" == ['b'] + "z" && "bZ" == ['b'] + "Z";
      if |bits| == 1 && bits in {"0", "1", "x", "z", "X", "Z"} then NormalizeText(bits) else X
    else X
  }
}
