/** `formatTime`: a playback position in seconds rendered as `MM:SS`, or as
    `HH:MM:SS` once it reaches an hour, every field zero-padded to two digits. */
module FormatTime {
  import opened Js
  import opened Text

  function Hours(time: real): int {
    (time / 3600.0).Floor
  }

  function Minutes(time: real): int {
    (Rem(time, 3600.0) / 60.0).Floor
  }

  function Seconds(time: real): int {
    Rem(time, 60.0).Floor
  }

  /** `n.toString().padStart(2, "0")` */
  function Field(n: int): string {
    PadStart(IntToString(n), 2, '0')
  }

  function FormatTime(time: real): string {
    Render(Hours(time), Minutes(time), Seconds(time))
  }

  /** The string built from the three fields. */
  function Render(hours: int, minutes: int, seconds: int): string {
    if hours > 0 then Field(hours) + ":" + Field(minutes) + ":" + Field(seconds)
    else Field(minutes) + ":" + Field(seconds)
  }

  // ---------------------------------------------------------------------------
  // Reading a rendered time back

  predicate AllFieldsDigits(fields: seq<string>) {
    forall k :: 0 <= k < |fields| ==> AllDigits(fields[k])
  }

  /** The fields read as the digits of one number in base 60. */
  function Sexagesimal(fields: seq<string>): nat
    requires AllFieldsDigits(fields)
  {
    if fields == [] then 0
    else Sexagesimal(fields[..|fields| - 1]) * 60 + ParseDigits(fields[|fields| - 1])
  }

  /** The number of whole seconds a `MM:SS` or `HH:MM:SS` string denotes, if
      it is one. */
  function DecodeTime(s: string): Option<nat> {
    DecodeFields(Split(s, ":"))
  }

  /** Two or three all-digit fields, read in base 60. */
  function DecodeFields(fields: seq<string>): Option<nat> {
    if AllFieldsDigits(fields) && 2 <= |fields| <= 3 then Some(Sexagesimal(fields)) else None
  }

  // ---------------------------------------------------------------------------
  // Arithmetic of the three fields

  /** For a non-negative time the three fields are those of its whole
      seconds `n`: `n / 3600` hours, then the whole minutes and the seconds
      left over. */
  lemma FieldsOfTime(time: real)
    requires time >= 0.0
    ensures Hours(time) == time.Floor / 3600
    ensures Minutes(time) == (time.Floor % 3600) / 60
    ensures Seconds(time) == time.Floor % 60
  {
    var n := time.Floor;
    assert Trunc(time / 3600.0) == n / 3600;
    assert Rem(time, 3600.0) == time - 3600.0 * (n / 3600) as real;
    assert (time / 60.0).Floor == n / 60;
    assert Trunc(time / 60.0) == n / 60;
    var r := Rem(time, 60.0);
    assert r == time - 60.0 * (n / 60) as real;
    assert r.Floor == n - 60 * (n / 60);
  }

  /** The rendering of a whole number of seconds. */
  function FormatSeconds(n: nat): string {
    Render(n / 3600, (n % 3600) / 60, n % 60)
  }

  lemma FormatTimeWhole(time: real)
    requires time >= 0.0
    ensures FormatTime(time) == FormatSeconds(time.Floor)
  {
    FieldsOfTime(time);
  }

  // ---------------------------------------------------------------------------
  // Shape of the output

  lemma {:induction false} FieldDigits(n: nat)
    ensures Field(n) == PadStart(NatToString(n), 2, '0')
    ensures |Field(n)| >= 2 && AllDigits(Field(n))
    ensures ParseDigits(Field(n)) == n
  {
    var s := NatToString(n);
    ParseNatToString(n);
    if |s| < 2 {
      assert Field(n) == Repeat('0', 2 - |s|) + s;
      ParseLeadingZeros(2 - |s|, s);
    }
  }

  lemma {:induction false} SplitThree(a: string, b: string, c: string)
    requires ':' !in a && ':' !in b && ':' !in c
    ensures Split(a + ":" + b + ":" + c, ":") == [a, b, c]
  {
    var parts := [a, b, c];
    assert Join(parts[2..], ":") == c;
    assert Join(parts[1..], ":") == b + ":" + c;
    assert Join(parts, ":") == a + ":" + b + ":" + c;
    SplitJoin(parts, ":");
  }

  lemma {:induction false} SplitTwo(a: string, b: string)
    requires ':' !in a && ':' !in b
    ensures Split(a + ":" + b, ":") == [a, b]
  {
    var parts := [a, b];
    assert Join(parts[1..], ":") == b;
    assert Join(parts, ":") == a + ":" + b;
    SplitJoin(parts, ":");
  }

  lemma NoColonInDigits(s: string)
    requires AllDigits(s)
    ensures ':' !in s
  {
    forall i | 0 <= i < |s|
      ensures s[i] != ':'
    {
      assert IsDigit(s[i]);
    }
  }

  /** The colon-separated fields of a rendering of non-negative fields. */
  lemma {:induction false} RenderFields(h: nat, m: nat, s: nat)
    ensures Split(Render(h, m, s), ":") == if h > 0 then [Field(h), Field(m), Field(s)] else [Field(m), Field(s)]
  {
    FieldDigits(h);
    FieldDigits(m);
    FieldDigits(s);
    NoColonInDigits(Field(h));
    NoColonInDigits(Field(m));
    NoColonInDigits(Field(s));
    if h > 0 {
      SplitThree(Field(h), Field(m), Field(s));
    } else {
      SplitTwo(Field(m), Field(s));
    }
  }

  /** Fields that are at least two digits each and read back as the given
      values. */
  predicate FieldsRead(fields: seq<string>, values: seq<int>) {
    && |fields| == |values|
    && (forall k :: 0 <= k < |fields| ==> |fields[k]| >= 2 && AllDigits(fields[k]) && ParseDigits(fields[k]) == values[k])
  }

  lemma FieldsReadThree(a: string, b: string, c: string, x: nat, y: nat, z: nat)
    requires |a| >= 2 && |b| >= 2 && |c| >= 2
    requires AllDigits(a) && AllDigits(b) && AllDigits(c)
    requires ParseDigits(a) == x && ParseDigits(b) == y && ParseDigits(c) == z
    ensures FieldsRead([a, b, c], [x, y, z])
  {
  }

  lemma FieldsReadTwo(b: string, c: string, y: nat, z: nat)
    requires |b| >= 2 && |c| >= 2
    requires AllDigits(b) && AllDigits(c)
    requires ParseDigits(b) == y && ParseDigits(c) == z
    ensures FieldsRead([b, c], [y, z])
  {
  }

  /** The colon-separated fields of a rendering: hours, minutes and seconds
      when there is at least one hour, otherwise minutes and seconds. */
  lemma RenderShape(h: nat, m: nat, s: nat)
    ensures FieldsRead(Split(Render(h, m, s), ":"), if h > 0 then [h, m, s] else [m, s])
  {
    RenderFields(h, m, s);
    FieldDigits(h);
    FieldDigits(m);
    FieldDigits(s);
    if h > 0 {
      FieldsReadThree(Field(h), Field(m), Field(s), h, m, s);
    } else {
      FieldsReadTwo(Field(m), Field(s), m, s);
    }
  }

  /** The colon-separated fields of the output: hours, minutes and seconds
      from the first whole hour on, minutes and seconds before it; each is at
      least two digits (the hours are never cut) and reads back as its value,
      minutes and seconds below 60. */
  lemma FormatTimeFields(time: real)
    requires time >= 0.0
    ensures FieldsRead(Split(FormatTime(time), ":"),
      if time >= 3600.0 then [Hours(time), Minutes(time), Seconds(time)] else [Minutes(time), Seconds(time)])
    ensures Hours(time) > 0 <==> time >= 3600.0
    ensures 0 <= Minutes(time) < 60 && 0 <= Seconds(time) < 60
  {
    FieldsOfTime(time);
    FormatTimeWhole(time);
    var n := time.Floor;
    RenderShape(n / 3600, (n % 3600) / 60, n % 60);
  }

  lemma SexagesimalThree(a: string, b: string, c: string)
    requires AllDigits(a) && AllDigits(b) && AllDigits(c)
    ensures AllFieldsDigits([a, b, c])
    ensures Sexagesimal([a, b, c]) == ParseDigits(a) * 3600 + ParseDigits(b) * 60 + ParseDigits(c)
  {
    var fields := [a, b, c];
    assert fields[..2] == [a, b];
    SexagesimalTwo(a, b);
    assert AllFieldsDigits(fields);
  }

  lemma SexagesimalTwo(b: string, c: string)
    requires AllDigits(b) && AllDigits(c)
    ensures AllFieldsDigits([b, c])
    ensures Sexagesimal([b, c]) == ParseDigits(b) * 60 + ParseDigits(c)
  {
    var fields := [b, c];
    assert fields[..1] == [b];
    assert [b][..0] == [];
    assert AllFieldsDigits([b]);
    assert Sexagesimal([b]) == ParseDigits(b);
    assert AllFieldsDigits(fields);
  }

  lemma DecodeThreeFields(a: string, b: string, c: string, x: nat, y: nat, z: nat)
    requires AllDigits(a) && AllDigits(b) && AllDigits(c)
    requires ParseDigits(a) == x && ParseDigits(b) == y && ParseDigits(c) == z
    ensures DecodeFields([a, b, c]) == Some(x * 3600 + y * 60 + z)
  {
    SexagesimalThree(a, b, c);
  }

  lemma DecodeTwoFields(b: string, c: string, y: nat, z: nat)
    requires AllDigits(b) && AllDigits(c)
    requires ParseDigits(b) == y && ParseDigits(c) == z
    ensures DecodeFields([b, c]) == Some(y * 60 + z)
  {
    SexagesimalTwo(b, c);
  }

  /** Decoding a rendering recombines its fields. */
  lemma DecodeRender(h: nat, m: nat, s: nat)
    ensures DecodeTime(Render(h, m, s)) == Some(if h > 0 then h * 3600 + m * 60 + s else m * 60 + s)
  {
    RenderFields(h, m, s);
    FieldDigits(h);
    FieldDigits(m);
    FieldDigits(s);
    if h > 0 {
      DecodeThreeFields(Field(h), Field(m), Field(s), h, m, s);
    } else {
      DecodeTwoFields(Field(m), Field(s), m, s);
    }
  }

  /** The three fields of a whole number of seconds recombine to it. */
  lemma SecondsFields(n: nat)
    ensures var h, m, s := n / 3600, (n % 3600) / 60, n % 60;
      (if h > 0 then h * 3600 + m * 60 + s else m * 60 + s) == n
  {
    var h, r := n / 3600, n % 3600;
    var m, s := r / 60, r % 60;
    assert n == 3600 * h + r;
    assert r == 60 * m + s;
    assert n % 60 == s;
  }

  /** Reading the rendering of a whole number of seconds back gives that
      number: the fields recombine as hours * 3600 + minutes * 60 + seconds. */
  lemma DecodeFormatSeconds(n: nat)
    ensures DecodeTime(FormatSeconds(n)) == Some(n)
  {
    SecondsFields(n);
    DecodeRecombined(n, n / 3600, (n % 3600) / 60, n % 60);
  }

  lemma DecodeRecombined(n: nat, h: nat, m: nat, s: nat)
    requires (if h > 0 then h * 3600 + m * 60 + s else m * 60 + s) == n
    ensures DecodeTime(Render(h, m, s)) == Some(n)
  {
    DecodeRender(h, m, s);
  }

  /** Reading the output back gives the whole number of seconds of the input. */
  lemma DecodeFormatTime(time: real)
    requires time >= 0.0
    ensures DecodeTime(FormatTime(time)) == Some(time.Floor)
  {
    FormatTimeWhole(time);
    DecodeFormatSeconds(time.Floor);
  }

  lemma FieldZero()
    ensures Field(0) == "00"
  {
    assert NatToString(0) == "0";
  }

  lemma SecondsUnderAMinute(n: nat)
    requires n < 60
    ensures FormatSeconds(n) == "00:" + Field(n)
  {
    assert n / 3600 == 0 && (n % 3600) / 60 == 0 && n % 60 == n;
    FieldZero();
  }

  /** Under a minute the output is `00:` followed by the two-digit seconds. */
  lemma FormatTimeUnderAMinute(time: real)
    requires 0.0 <= time < 60.0
    ensures FormatTime(time) == "00:" + PadStart(NatToString(time.Floor), 2, '0')
  {
    FormatTimeWhole(time);
    SecondsUnderAMinute(time.Floor);
    FieldDigits(time.Floor);
  }
}
