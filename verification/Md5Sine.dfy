/** The constants of the program's table are those of section 3.4 of RFC 1321: the integer part
    of 2^32 times the sine of i + 1 radians, whatever its sign. */
module Md5Sine {
  import opened Md5

  function Factorial(n: nat): (f: real)
    ensures f > 0.0
  {
    if n == 0 then 1.0 else n as real * Factorial(n - 1)
  }

  /** n terms of the power series at 1, of the cosine for d = 0 and of the sine for d = 1. */
  function Series(d: nat, n: nat): real {
    if n == 0 then 0.0
    else if n % 2 == 1 then Series(d, n - 1) + 1.0 / Factorial(2 * n - 2 + d)
    else Series(d, n - 1) - 1.0 / Factorial(2 * n - 2 + d)
  }

  /** s and c lie where the sine and the cosine of 1 do: the terms alternate and shrink, so that
      a sum of an even number of them is too small and one of an odd number too large. */
  predicate SineCosine(s: real, c: real, n: nat) {
    n % 2 == 1 && Series(1, n + 1) <= s <= Series(1, n) && Series(0, n + 1) <= c <= Series(0, n)
  }

  function Times(x: real, y: real): real { x * y }

  datatype Point = Point(sin: real, cos: real)

  /** One radian more: the addition theorems. */
  predicate Turned(s: real, c: real, a: seq<Point>, k: nat)
    requires k + 1 < |a|
  {
    && a[k + 1].sin == Times(a[k].sin, c) + Times(a[k].cos, s)
    && a[k + 1].cos == Times(a[k].cos, c) - Times(a[k].sin, s)
  }

  /** Sine and cosine of 0 to 64, given those of 1. */
  predicate Angles(s: real, c: real, a: seq<Point>) {
    |a| == 65 && a[0] == Point(0.0, 1.0) && forall k: nat :: k < 64 ==> Turned(s, c, a, k)
  }

  function Abs(x: real): real { if x < 0.0 then -x else x }

  /** What section 3.4 says about row i. */
  predicate RowIsSine(a: seq<Point>, i: nat)
    requires i < 64 && |a| == 65
  {
    Tab(i).sin as int == (4294967296.0 * Abs(a[i + 1].sin)).Floor
  }

  // ---- errors -----------------------------------------------------------------------------

  predicate Within(x: real, y: real, e: real) { -e <= x - y <= e }

  lemma SmallProduct(u: real, v: real, p: real, q: real)
    requires -p <= u <= p && -q <= v <= q
    ensures -(p * q) <= u * v <= p * q
  {
    assert (p - u) * (q + v) >= 0.0 && (p + u) * (q - v) >= 0.0;
    assert (p - u) * (q - v) >= 0.0 && (p + u) * (q + v) >= 0.0;
  }

  lemma ProductWithin(x: real, y: real, a: real, b: real, e: real, f: real, m: real)
    requires Within(x, a, e) && Within(y, b, f) && Abs(a) <= 1.0 && Abs(b) <= m && e >= 0.0 && f >= 0.0
    ensures Within(Times(x, y), Times(a, b), f + (m + f) * e)
  {
    SmallProduct(x - a, y - b, e, f);
    SmallProduct(a, y - b, 1.0, f);
    SmallProduct(b, x - a, m, e);
    assert x * y - a * b == (x - a) * (y - b) + a * (y - b) + b * (x - a);
  }

  const SIN1 := 0.84147098480789650665250232163030
  const COS1 := 0.54030230586813971740093660744298

  const RADIUS := 0.000000000000000000000000000000006

  predicate Close(s: real, c: real) { Within(s, SIN1, RADIUS) && Within(c, COS1, RADIUS) }

  predicate Near(p: Point, g: Point, e: real) { Within(p.sin, g.sin, e) && Within(p.cos, g.cos, e) }

  lemma Turns(s: real, c: real, a: seq<Point>, k: nat)
    requires Angles(s, c, a) && k < 64
    ensures a[k + 1].sin == Times(a[k].sin, c) + Times(a[k].cos, s)
    ensures a[k + 1].cos == Times(a[k].cos, c) - Times(a[k].sin, s)
  {
    hide Times;
    assert Turned(s, c, a, k);
  }

  lemma FloorIs(x: real, n: int)
    requires n as real <= x < n as real + 1.0
    ensures x.Floor == n
  {
  }

  /** One row: the sine is near enough to x to tell its integer part. */
  lemma RowNear(a: seq<Point>, k: nat, g: Point, e: real, t: word)
    requires k < 64 && |a| == 65 && Tab(k).sin == t && Near(a[k + 1], g, e)
    requires (t as int) as real <= 4294967296.0 * (Abs(g.sin) - e)
    requires 4294967296.0 * (Abs(g.sin) + e) < (t as int) as real + 1.0
    ensures RowIsSine(a, k)
  {
    hide Tab;
    FloorIs(4294967296.0 * Abs(a[k + 1].sin), t as int);
  }

  /** One radian more at most doubles the error, and leaves the sine near enough to tell the row. */
  lemma Row(s: real, c: real, a: seq<Point>, k: nat, g: Point, e: real, t: word, x: real, y: real)
    returns (h: Point, f: real)
    requires Close(s, c) && Angles(s, c, a) && k < 64
    requires Near(a[k], g, e) && 0.00000000000000000000000000000005 <= e <= 1.0
    requires Abs(g.sin) <= 1.0 && Abs(g.cos) <= 1.0
    requires Within(Times(g.sin, COS1) + Times(g.cos, SIN1), x, 0.000000000000000000000000000000015)
    requires Within(Times(g.cos, COS1) - Times(g.sin, SIN1), y, 0.000000000000000000000000000000015)
    requires Tab(k).sin == t
    requires (t as int) as real <= 4294967296.0 * (Abs(x) - 2.0 * e)
    requires 4294967296.0 * (Abs(x) + 2.0 * e) < (t as int) as real + 1.0
    ensures h == Point(x, y) && f == 2.0 * e && Near(a[k + 1], h, f) && RowIsSine(a, k)
  {
    hide Angles, Tab, RowIsSine, Times;
    Turns(s, c, a, k);
    SizeOf(s, c, a);
    var p := a[k];
    ProductWithin(p.sin, c, g.sin, COS1, e, RADIUS, 0.541);
    ProductWithin(p.cos, s, g.cos, SIN1, e, RADIUS, 0.85);
    ProductWithin(p.cos, c, g.cos, COS1, e, RADIUS, 0.541);
    ProductWithin(p.sin, s, g.sin, SIN1, e, RADIUS, 0.85);
    assert (0.85 + RADIUS) * e <= 0.851 * e && (0.541 + RADIUS) * e <= 0.542 * e;
    h, f := Point(x, y), 2.0 * e;
    RowNear(a, k, h, f, t);
  }

  lemma SizeOf(s: real, c: real, a: seq<Point>)
    requires Angles(s, c, a)
    ensures |a| == 65
  {
  }

  // ---- one radian --------------------------------------------------------------------------

  lemma SeriesStart(d: nat)
    requires d <= 1
    ensures Series(d, 0) == 0.0 && Factorial(d) == 1.0
  {
  }

  lemma FactorialNext(m: nat)
    ensures Factorial(m + 2) == (m + 2) as real * ((m + 1) as real * Factorial(m))
  {
    assert Factorial(m + 2) == (m + 2) as real * Factorial(m + 1);
  }

  lemma SeriesTerm(d: nat, n: nat)
    ensures Series(d, n + 1) == Series(d, n) + (if n % 2 == 0 then 1.0 else -1.0) / Factorial(2 * n + d)
  {
    hide Factorial;
    assert 2 * (n + 1) - 2 + d == 2 * n + d;
  }

  lemma SeriesNext(d: nat, n: nat, f: real)
    requires Factorial(2 * n + d) == f
    ensures Series(d, n + 1) == Series(d, n) + (if n % 2 == 0 then 1.0 else -1.0) / f
    ensures Factorial(2 * n + 2 + d) == (2 * n + 2 + d) as real * ((2 * n + 1 + d) as real * f)
  {
    hide Factorial, Series;
    FactorialNext(2 * n + d);
    SeriesTerm(d, n);
  }

  lemma SineSeries(n: nat)
    requires n == 17
    ensures SIN1 - RADIUS <= Series(1, n + 1) && Series(1, n) <= SIN1 + RADIUS
  {
    hide Series, Factorial;
    SeriesStart(1);
    SeriesNext(1, 0, 1.0);
    SeriesNext(1, 1, 6.0);
    SeriesNext(1, 2, 120.0);
    SeriesNext(1, 3, 5040.0);
    SeriesNext(1, 4, 362880.0);
    SeriesNext(1, 5, 39916800.0);
    SeriesNext(1, 6, 6227020800.0);
    SeriesNext(1, 7, 1307674368000.0);
    SeriesNext(1, 8, 355687428096000.0);
    SeriesNext(1, 9, 121645100408832000.0);
    SeriesNext(1, 10, 51090942171709440000.0);
    SeriesNext(1, 11, 25852016738884976640000.0);
    SeriesNext(1, 12, 15511210043330985984000000.0);
    SeriesNext(1, 13, 10888869450418352160768000000.0);
    SeriesNext(1, 14, 8841761993739701954543616000000.0);
    SeriesNext(1, 15, 8222838654177922817725562880000000.0);
    SeriesNext(1, 16, 8683317618811886495518194401280000000.0);
    SeriesNext(1, 17, 10333147966386144929666651337523200000000.0);
  }

  lemma CosineSeries(n: nat)
    requires n == 17
    ensures COS1 - RADIUS <= Series(0, n + 1) && Series(0, n) <= COS1 + RADIUS
  {
    hide Series, Factorial;
    SeriesStart(0);
    SeriesNext(0, 0, 1.0);
    SeriesNext(0, 1, 2.0);
    SeriesNext(0, 2, 24.0);
    SeriesNext(0, 3, 720.0);
    SeriesNext(0, 4, 40320.0);
    SeriesNext(0, 5, 3628800.0);
    SeriesNext(0, 6, 479001600.0);
    SeriesNext(0, 7, 87178291200.0);
    SeriesNext(0, 8, 20922789888000.0);
    SeriesNext(0, 9, 6402373705728000.0);
    SeriesNext(0, 10, 2432902008176640000.0);
    SeriesNext(0, 11, 1124000727777607680000.0);
    SeriesNext(0, 12, 620448401733239439360000.0);
    SeriesNext(0, 13, 403291461126605635584000000.0);
    SeriesNext(0, 14, 304888344611713860501504000000.0);
    SeriesNext(0, 15, 265252859812191058636308480000000.0);
    SeriesNext(0, 16, 263130836933693530167218012160000000.0);
    SeriesNext(0, 17, 295232799039604140847618609643520000000.0);
  }

  // ---- the rows ----------------------------------------------------------------------------

  lemma NoRow(s: real, c: real, a: seq<Point>) returns (g: Point, e: real)
    requires Angles(s, c, a)
    ensures Near(a[0], g, e) && g == Point(0.0, 1.0) && e == 0.00000000000000000000000000000005
  {
    g, e := Point(0.0, 1.0), 0.00000000000000000000000000000005;
  }

  lemma FirstRows(s: real, c: real, a: seq<Point>) returns (g: Point, e: real)
    requires Close(s, c) && Angles(s, c, a)
    ensures Near(a[8], g, e) && e == 0.0000000000000000000000000000128
    ensures g == Point(0.98935824662338177780812359824529, -0.14550003380861352586884138183119)
    ensures forall i :: 0 <= i < 8 ==> RowIsSine(a, i)
  {
    hide Angles, RowIsSine, Near;
    SizeOf(s, c, a);
    g, e := NoRow(s, c, a);
    g, e := Row(s, c, a, 0, g, e, 0xd76aa478,
      0.84147098480789650665250232163030, 0.54030230586813971740093660744298);
    g, e := Row(s, c, a, 1, g, e, 0xe8c7b756,
      0.90929742682568169539601986591174, -0.41614683654714238699756822950076);
    g, e := Row(s, c, a, 2, g, e, 0x242070db,
      0.14112000805986722210074480280811, -0.98999249660044545727157279473126);
    g, e := Row(s, c, a, 3, g, e, 0xc1bdceee,
      -0.75680249530792825137263909451183, -0.65364362086361191463916818309775);
    g, e := Row(s, c, a, 4, g, e, 0xf57c0faf,
      -0.95892427466313846889315440615599, 0.28366218546322626446663917151356);
    g, e := Row(s, c, a, 5, g, e, 0x4787c62a,
      -0.27941549819892587281155544661189, 0.96017028665036602054565229792292);
    g, e := Row(s, c, a, 6, g, e, 0xa8304613,
      0.65698659871878909039699909159364, 0.75390225434330463814119752171918);
    g, e := Row(s, c, a, 7, g, e, 0xfd469501,
      0.98935824662338177780812359824529, -0.14550003380861352586884138183119);
  }

  lemma SecondRows(s: real, c: real, a: seq<Point>) returns (g: Point, e: real)
    requires Close(s, c) && Angles(s, c, a)
    ensures Near(a[16], g, e) && e == 0.0000000000000000000000000032768
    ensures g == Point(-0.28790331666506529478445624821862, -0.95765948032338464189963723265110)
    ensures forall i :: 8 <= i < 16 ==> RowIsSine(a, i)
  {
    hide Angles, RowIsSine, Near;
    SizeOf(s, c, a);
    g, e := FirstRows(s, c, a);
    g, e := Row(s, c, a, 8, g, e, 0x698098d8,
      0.41211848524175656975627256635244, -0.91113026188467698836829471118117);
    g, e := Row(s, c, a, 9, g, e, 0x8b44f7af,
      -0.54402111088936981340474766185138, -0.83907152907645245225886394782406);
    g, e := Row(s, c, a, 10, g, e, 0xffff5bb1,
      -0.99999020655070345705156489902552, 0.00442569798805078574835502472394);
    g, e := Row(s, c, a, 11, g, e, 0x895cd7be,
      -0.53657291800043497166537422824240, 0.84385395873249210465395529317362);
    g, e := Row(s, c, a, 12, g, e, 0x6b901122,
      0.42016703682664092186895503547688, 0.90744678145019621385268615547448);
    g, e := Row(s, c, a, 13, g, e, 0xfd987193,
      0.99060735569487030787535480401459, 0.13673721820783359424892887667174);
    g, e := Row(s, c, a, 14, g, e, 0xa679438e,
      0.65028784015711686582974027098887, -0.75968791285882127384814640363328);
    g, e := Row(s, c, a, 15, g, e, 0x49b40821,
      -0.28790331666506529478445624821862, -0.95765948032338464189963723265110);
  }

  lemma ThirdRows(s: real, c: real, a: seq<Point>) returns (g: Point, e: real)
    requires Close(s, c) && Angles(s, c, a)
    ensures Near(a[24], g, e) && e == 0.0000000000000000000000008388608
    ensures g == Point(-0.90557836200662384513579335852779, 0.42417900733699697593705094475921)
    ensures forall i :: 16 <= i < 24 ==> RowIsSine(a, i)
  {
    hide Angles, RowIsSine, Near;
    SizeOf(s, c, a);
    g, e := SecondRows(s, c, a);
    g, e := Row(s, c, a, 16, g, e, 0xf61e2562,
      -0.96139749187955685726163694486916, -0.27516333805159692222034265655186);
    g, e := Row(s, c, a, 17, g, e, 0xc040b340,
      -0.75098724677167610375015608444711, 0.66031670824408014481610004479045);
    g, e := Row(s, c, a, 18, g, e, 0x265e5a51,
      0.14987720966295232975423932123825, 0.98870461818666925289835285654816);
    g, e := Row(s, c, a, 19, g, e, 0xe9b6c7aa,
      0.91294525072762765437609998384568, 0.40808206181339198606226786092764);
    g, e := Row(s, c, a, 20, g, e, 0xd62f105d,
      0.83665563853605603186648077024502, -0.54772926022426842138427113295098);
    g, e := Row(s, c, a, 21, g, e, 0x02441453,
      -0.00885130929040387592169025681577, -0.99996082639463712645417473921269);
    g, e := Row(s, c, a, 22, g, e, 0xd8a1e681,
      -0.84622040417517063524132627190560, -0.53283302033339755521575765716413);
    g, e := Row(s, c, a, 23, g, e, 0xe7d3fbc8,
      -0.90557836200662384513579335852779, 0.42417900733699697593705094475921);
  }

  lemma FourthRows(s: real, c: real, a: seq<Point>) returns (g: Point, e: real)
    requires Close(s, c) && Angles(s, c, a)
    ensures Near(a[32], g, e) && e == 0.0000000000000000000002147483648
    ensures g == Point(0.55142668124169055066155816684571, 0.83422336050651027221552647087029)
    ensures forall i :: 24 <= i < 32 ==> RowIsSine(a, i)
  {
    hide Angles, RowIsSine, Near;
    SizeOf(s, c, a);
    g, e := ThirdRows(s, c, a);
    g, e := Row(s, c, a, 24, g, e, 0x21e1cde6,
      -0.13235175009777302890200509388361, 0.99120281186347359808329471881592);
    g, e := Row(s, c, a, 25, g, e, 0xc33707d6,
      0.76255845047960273751582329320456, 0.64691932232864034272138390188890);
    g, e := Row(s, c, a, 26, g, e, 0xf4d50d87,
      0.95637592840450301343234055832919, -0.29213880873383619337140483583763);
    g, e := Row(s, c, a, 27, g, e, 0x455a14ed,
      0.27090578830786901998634309277879, -0.96260586631356660197545305789931);
    g, e := Row(s, c, a, 28, g, e, 0xa9e3e905,
      -0.66363388421296750215117334006111, -0.74805752968900035176519179225514);
    g, e := Row(s, c, a, 29, g, e, 0xfcefa3f8,
      -0.98803162409286178998774890729446, 0.15425144988758405071866214661421);
    g, e := Row(s, c, a, 30, g, e, 0x676f02d9,
      -0.40403764532306500604877089966424, 0.91474235780453127896243582615035);
    g, e := Row(s, c, a, 31, g, e, 0x8d2a4c8a,
      0.55142668124169055066155816684571, 0.83422336050651027221552647087029);
  }

  lemma FifthRows(s: real, c: real, a: seq<Point>) returns (g: Point, e: real)
    requires Close(s, c) && Angles(s, c, a)
    ensures Near(a[40], g, e) && e == 0.0000000000000000000549755813888
    ensures g == Point(0.74511316047934878698770940263634, -0.66693806165226184438409278193370)
    ensures forall i :: 32 <= i < 40 ==> RowIsSine(a, i)
  {
    hide Angles, RowIsSine, Near;
    SizeOf(s, c, a);
    g, e := FourthRows(s, c, a);
    g, e := Row(s, c, a, 32, g, e, 0xfffa3942,
      0.99991186010726714572808437670783, -0.01327674722305947891522003137101);
    g, e := Row(s, c, a, 33, g, e, 0x8771f681,
      0.52908268612002382083248713403210, -0.84857027478460518659997208771238);
    g, e := Row(s, c, a, 34, g, e, 0x6d9d6122,
      -0.42818266949615100440675289174594, -0.90369220509150675984730457208377);
    g, e := Row(s, c, a, 35, g, e, 0xfde5380c,
      -0.99177885344311573683528896884082, -0.12796368962740468102832797791437);
    g, e := Row(s, c, a, 36, g, e, 0xa4beea44,
      -0.64353813335699946068567001908080, 0.76541405194534335649108129290251);
    g, e := Row(s, c, a, 37, g, e, 0x4bdecfa9,
      0.29636857870938531739229664984902, 0.95507364404729485758653623540588);
    g, e := Row(s, c, a, 38, g, e, 0xf6bb4b60,
      0.96379538628408775326066497176588, 0.26664293235993725152682579497563);
    g, e := Row(s, c, a, 39, g, e, 0xbebfbc70,
      0.74511316047934878698770940263634, -0.66693806165226184438409278193370);
  }

  lemma SixthRows(s: real, c: real, a: seq<Point>) returns (g: Point, e: real)
    requires Close(s, c) && Angles(s, c, a)
    ensures Near(a[48], g, e) && e == 0.0000000000000000140737488355328
    ensures g == Point(-0.76825466132366679904496566484589, -0.64014433946919973131294141939308)
    ensures forall i :: 40 <= i < 48 ==> RowIsSine(a, i)
  {
    hide Angles, RowIsSine, Near;
    SizeOf(s, c, a);
    g, e := FifthRows(s, c, a);
    g, e := Row(s, c, a, 40, g, e, 0x289b7ec6,
      -0.15862266880470898710331701192969, -0.98733927752382645822882513341483);
    g, e := Row(s, c, a, 41, g, e, 0xeaa127fa,
      -0.91652154791563378589898915806967, -0.39998531498835129395470733717720);
    g, e := Row(s, c, a, 42, g, e, 0xd4ef3085,
      -0.83177474262859828820957825629175, 0.55511330152062567704487944196259);
    g, e := Row(s, c, a, 43, g, e, 0x04881d05,
      0.01770192510541357780795405316662, 0.99984330864769122006900901663786);
    g, e := Row(s, c, a, 44, g, e, 0xd9d4d039,
      0.85090352453411842486237967761804, 0.52532198881772969604746440482356);
    g, e := Row(s, c, a, 45, g, e, 0xe6db99e5,
      0.90178834764880918503329303922274, -0.43217794488477829495277652413277);
    g, e := Row(s, c, a, 46, g, e, 0x1fa27cf8,
      0.12357312274522400406152934808641, -0.99233546915092871827975242034486);
    g, e := Row(s, c, a, 47, g, e, 0xc4ac5665,
      -0.76825466132366679904496566484589, -0.64014433946919973131294141939308);
  }

  lemma SeventhRows(s: real, c: real, a: seq<Point>) returns (g: Point, e: real)
    requires Close(s, c) && Angles(s, c, a)
    ensures Near(a[56], g, e) && e == 0.0000000000000036028797018963968
    ensures g == Point(-0.52155100208691188018741002151060, 0.85322010772258411396968123391491)
    ensures forall i :: 48 <= i < 56 ==> RowIsSine(a, i)
  {
    hide Angles, RowIsSine, Near;
    SizeOf(s, c, a);
    g, e := SixthRows(s, c, a);
    g, e := Row(s, c, a, 48, g, e, 0xf4292244,
      -0.95375265275947181836042355858771, 0.30059254374363708368702600049056);
    g, e := Row(s, c, a, 49, g, e, 0x432aff97,
      -0.26237485370392878591439364691262, 0.96496602849211327406895705890102);
    g, e := Row(s, c, a, 50, g, e, 0xab9423a7,
      0.67022917584337473449434507495067, 0.74215419681378253946737717573696);
    g, e := Row(s, c, a, 51, g, e, 0xfc93a039,
      0.98662759204048529658756893443674, -0.16299078079570548100332981542521);
    g, e := Row(s, c, a, 52, g, e, 0x655b59c3,
      0.39592515018183418150338613926354, -0.91828278621211889119972632321647);
    g, e := Row(s, c, a, 53, g, e, 0x8f0ccc92,
      -0.55878904885161624581787131896539, -0.82930983286315014772785004248817);
    g, e := Row(s, c, a, 54, g, e, 0xffeff47d,
      -0.99975517335861983659863168324389, 0.02212675626195573456356426214663);
    g, e := Row(s, c, a, 55, g, e, 0x85845dd1,
      -0.52155100208691188018741002151060, 0.85322010772258411396968123391491);
  }

  lemma EighthRows(s: real, c: real, a: seq<Point>) returns (g: Point, e: real)
    requires Close(s, c) && Angles(s, c, a)
    ensures Near(a[64], g, e) && e == 0.0000000000009223372036854775808
    ensures g == Point(0.92002603819679068335153660377725, 0.39185723042955000516170985851312)
    ensures forall i :: 56 <= i < 64 ==> RowIsSine(a, i)
  {
    hide Angles, RowIsSine, Near;
    SizeOf(s, c, a);
    g, e := SeventhRows(s, c, a);
    g, e := Row(s, c, a, 56, g, e, 0x6fa87e4f,
      0.43616475524782495908053479312924, 0.89986682696919378650300040465784);
    g, e := Row(s, c, a, 57, g, e, 0xfe2ce6e0,
      0.99287264808453711816508816442540, 0.11918013544881928543584361076696);
    g, e := Row(s, c, a, 58, g, e, 0xa3014314,
      0.63673800713913788077123349237683, -0.77108022297584522938743529637629);
    g, e := Row(s, c, a, 59, g, e, 0x4e0811a1,
      -0.30481062110221670562564946547843, -0.95241298041515629269381659599293);
    g, e := Row(s, c, a, 60, g, e, 0xf7537e82,
      -0.96611777000839294701828798948052, -0.25810163593826744570120734715275);
    g, e := Row(s, c, a, 61, g, e, 0xbd3af235,
      -0.73918069664922286727601693375544, 0.67350716232358625288783340595394);
    g, e := Row(s, c, a, 62, g, e, 0x2ad7d2bb,
      0.16735570030280692152783837028872, 0.98589658158254969743863575605398);
    g, e := Row(s, c, a, 63, g, e, 0xeb86d391,
      0.92002603819679068335153660377725, 0.39185723042955000516170985851312);
  }

  /** Every constant of the program's table; seventeen terms of the series tell sine and cosine of 1 well enough. */
  lemma TableIsSine(s: real, c: real, n: nat, a: seq<Point>, i: nat)
    requires n == 17 && SineCosine(s, c, n) && Angles(s, c, a) && i < 64
    ensures Tab(i).sin as int == (4294967296.0 * Abs(a[i + 1].sin)).Floor
  {
    hide Series, Angles, Tab;
    SizeOf(s, c, a);
    SineSeries(n);
    CosineSeries(n);
    var _, _ := FirstRows(s, c, a);
    var _, _ := SecondRows(s, c, a);
    var _, _ := ThirdRows(s, c, a);
    var _, _ := FourthRows(s, c, a);
    var _, _ := FifthRows(s, c, a);
    var _, _ := SixthRows(s, c, a);
    var _, _ := SeventhRows(s, c, a);
    var _, _ := EighthRows(s, c, a);
    assert RowIsSine(a, i);
  }
}
