/** The direction table of the mock navigation service: getDirectionInfo maps the number of
    notifications fired so far to the title, distance label, icon and alert-once flag of the
    next notification. The count is reduced with Java's remainder (which truncates toward
    zero) modulo a cycle of 35 and falls into one of four bands, each counting a distance
    down to its last index.

    Distances are exact numbers of tenths of a unit (0.5 km is 5 tenths, 40 m is 400) instead
    of the doubles the source multiplies; the label is their "#.##" text with the unit
    appended. */
module Directions {
  import opened DecimalFormat

  /** Length of the repeating cycle of directions. */
  const Cycle := 35

  /** The four drawable resources, as opaque distinct constants. */
  datatype Icon = ArrowStraight | ArrowRightTurn | Ic520 | LocalGasStation

  datatype Unit = Km | Metre

  /** The exact distance tenths / 10, in unit. */
  datatype Distance = Distance(tenths: nat, unit: Unit)

  /** What a notification shows: the source's DirectionInfo container. */
  datatype DirectionInfo = DirectionInfo(title: string, distance: string, icon: Icon, onlyAlertOnce: bool)

  /** One branch of getDirectionInfo before its distance is formatted. */
  datatype Entry = Entry(title: string, distance: Distance, icon: Icon, onlyAlertOnce: bool)

  /** notificationCount % 35 with Java's int remainder: division truncates toward zero, so
      the result takes the sign of the count (section 15.17.3 of the Java Language
      Specification). */
  function RepeatingCount(n: int): (r: int)
    ensures -Cycle < r < Cycle
    ensures n >= 0 ==> 0 <= r
    ensures n < 0 ==> r <= 0
    ensures (n - r) % Cycle == 0
  {
    if n >= 0 then n % Cycle else -((-n) % Cycle)
  }

  /** The if / else chain of getDirectionInfo over the repeating count r. */
  function Branch(r: int): (e: Entry)
    requires -Cycle < r < Cycle
    ensures 0 <= r ==>
              && e.title == Title(BandOf(r))
              && e.icon == IconOf(BandOf(r))
              && e.onlyAlertOnce == (r != Low(BandOf(r)))
              && e.distance.unit == UnitOf(BandOf(r))
    ensures r < 0 ==> e.title == Title(GasStation) && e.icon == LocalGasStation && !e.onlyAlertOnce
  {
    if 0 <= r < 10 then
      Entry("Go Straight", Distance(10 - r, Km), ArrowStraight, r > 0)
    else if 10 <= r < 20 then
      Entry("Turn Right", Distance((20 - r) * 5, Km), ArrowRightTurn, r > 10)
    else if 20 <= r < 25 then
      Entry("Take 520", Distance((25 - r) * 400, Metre), Ic520, r > 20)
    else
      Entry("Gas Station", Distance(35 - r, Km), LocalGasStation, r > 25)
  }

  function UnitSuffix(u: Unit): string {
    match u
    case Km => "km"
    case Metre => "m"
  }

  /** The distance text: "#.##" with RoundingMode.DOWN, then the unit. */
  function Label(d: Distance): (s: string)
    ensures |s| > |UnitSuffix(d.unit)|
    ensures s[|s| - |UnitSuffix(d.unit)|..] == UnitSuffix(d.unit)
    ensures ParseHundredths(s[..|s| - |UnitSuffix(d.unit)|]) == Some(Hundredths(d))
  {
    var text := Format(d.tenths, 10);
    FormatHundredthsRoundTrip(Truncate(d.tenths, 10));
    assert (text + UnitSuffix(d.unit))[..|text|] == text;
    text + UnitSuffix(d.unit)
  }

  /** The text before the unit has the "#.##" shape, and Label(d) is the only such text,
      followed by the unit, that reads back as the truncated distance. */
  lemma LabelCanonical(d: Distance, t: string)
    ensures Canonical(Label(d)[..|Label(d)| - |UnitSuffix(d.unit)|])
    ensures Canonical(t) && ParseHundredths(t) == Some(Hundredths(d)) ==> t + UnitSuffix(d.unit) == Label(d)
  {
    var text := Format(d.tenths, 10);
    assert Label(d) == text + UnitSuffix(d.unit);
    assert (text + UnitSuffix(d.unit))[..|text|] == text;
    FormatCanonical(d.tenths, 10, t);
  }

  /** The hundredths of a unit that the label of d shows. */
  function Hundredths(d: Distance): nat {
    Truncate(d.tenths, 10)
  }

  /** getDirectionInfo: a count n >= 0 gets the title, icon and alert-once flag of the band
      that n % 35 lies in (DirectionInfoInBand gives its label). */
  function GetDirectionInfo(n: int): (info: DirectionInfo)
    ensures n >= 0 ==>
              var b := BandOf(RepeatingCount(n));
              && info.title == Title(b)
              && info.icon == IconOf(b)
              && info.onlyAlertOnce == (RepeatingCount(n) != Low(b))
  {
    var e := Branch(RepeatingCount(n));
    DirectionInfo(e.title, Label(e.distance), e.icon, e.onlyAlertOnce)
  }

  // ---------------------------------------------------------------------------------------
  // The reference table: four contiguous bands of the cycle, each with its title, icon and a
  // distance that counts down by a fixed step to the band's last index.

  datatype Band = Straight | RightTurn | Take520 | GasStation

  function Low(b: Band): nat {
    match b
    case Straight => 0
    case RightTurn => 10
    case Take520 => 20
    case GasStation => 25
  }

  function High(b: Band): nat {
    match b
    case Straight => 10
    case RightTurn => 20
    case Take520 => 25
    case GasStation => 35
  }

  predicate InBand(r: int, b: Band) {
    Low(b) <= r < High(b)
  }

  function Title(b: Band): string {
    match b
    case Straight => "Go Straight"
    case RightTurn => "Turn Right"
    case Take520 => "Take 520"
    case GasStation => "Gas Station"
  }

  function IconOf(b: Band): Icon {
    match b
    case Straight => ArrowStraight
    case RightTurn => ArrowRightTurn
    case Take520 => Ic520
    case GasStation => LocalGasStation
  }

  function UnitOf(b: Band): Unit {
    if b == Take520 then Metre else Km
  }

  /** Hundredths of UnitOf(b) that the distance drops by per notification. */
  function Step(b: Band): nat {
    match b
    case Straight => 10
    case RightTurn => 50
    case Take520 => 4000
    case GasStation => 10
  }

  /** The distance at the band's first index, in hundredths of UnitOf(b): 1 km, 5 km, 200 m, 1 km. */
  function First(b: Band): nat {
    match b
    case Straight => 100
    case RightTurn => 500
    case Take520 => 20000
    case GasStation => 100
  }

  /** The distance at the band's last index: 0.1 km, 0.5 km, 40 m, 0.1 km. */
  function Last(b: Band): nat {
    match b
    case Straight => 10
    case RightTurn => 50
    case Take520 => 4000
    case GasStation => 10
  }

  /** The distance at index r of band b, in hundredths of UnitOf(b): Step(b) for each index
      from r to the band's last one. */
  function Remaining(r: int, b: Band): nat
    requires InBand(r, b)
  {
    (High(b) - r) * Step(b)
  }

  // ---------------------------------------------------------------------------------------
  // Properties of the table.

  /** The bands cover the cycle without gap or overlap. */
  lemma BandsPartition(r: int)
    requires 0 <= r < Cycle
    ensures exists b :: InBand(r, b)
    ensures forall b1: Band, b2: Band :: InBand(r, b1) && InBand(r, b2) ==> b1 == b2
  {
    if r < 10 {
      assert InBand(r, Straight);
    } else if r < 20 {
      assert InBand(r, RightTurn);
    } else if r < 25 {
      assert InBand(r, Take520);
    } else {
      assert InBand(r, GasStation);
    }
  }

  /** The band that r lies in. */
  function BandOf(r: int): (b: Band)
    requires 0 <= r < Cycle
    ensures InBand(r, b)
  {
    if r < 10 then Straight else if r < 20 then RightTurn else if r < 25 then Take520 else GasStation
  }

  /** The four bands have four different titles. */
  lemma TitlesDistinct(b: Band, c: Band)
    ensures Title(b) == Title(c) <==> b == c
  {
    if b != c {
      assert Title(b)[0] != Title(c)[0] || Title(b)[1] != Title(c)[1];
    }
  }

  /** Within a band the distance is the count-down Remaining(r, b), and truncating it to
      two fraction digits loses nothing. */
  lemma BranchDistance(r: int, b: Band)
    requires InBand(r, b)
    ensures Branch(r).distance.unit == UnitOf(b)
    ensures Hundredths(Branch(r).distance) == Remaining(r, b)
    ensures Hundredths(Branch(r).distance) == Branch(r).distance.tenths * 10
  {
  }

  /** The label of the distance at r in band b. */
  lemma LabelInBand(r: int, b: Band)
    requires InBand(r, b)
    ensures Label(Branch(r).distance) == FormatHundredths(Remaining(r, b)) + UnitSuffix(UnitOf(b))
  {
    var d := Branch(r).distance;
    BranchDistance(r, b);
    assert Format(d.tenths, 10) == FormatHundredths(Truncate(d.tenths, 10));
  }

  /** What getDirectionInfo returns for a count in band b. */
  lemma DirectionInfoInBand(n: int, b: Band)
    requires n >= 0 && InBand(n % Cycle, b)
    ensures GetDirectionInfo(n).title == Title(b)
    ensures GetDirectionInfo(n).icon == IconOf(b)
    ensures GetDirectionInfo(n).onlyAlertOnce == (n % Cycle != Low(b))
    ensures GetDirectionInfo(n).distance
            == FormatHundredths(Remaining(n % Cycle, b)) + UnitSuffix(UnitOf(b))
  {
    TitleAndAlertInBand(n, b);
    LabelOfCount(n, b);
  }

  /** The distance label of a count in band b (the part of DirectionInfoInBand that depends
      on the formatter). */
  lemma LabelOfCount(n: int, b: Band)
    requires n >= 0 && InBand(n % Cycle, b)
    ensures GetDirectionInfo(n).distance
            == FormatHundredths(Remaining(n % Cycle, b)) + UnitSuffix(UnitOf(b))
  {
    var r := n % Cycle;
    assert RepeatingCount(n) == r;
    LabelInBand(r, b);
    assert GetDirectionInfo(n).distance == Label(Branch(r).distance);
  }

  /** The title, icon and alert-once flag of a count in band b (the part of
      DirectionInfoInBand that does not depend on the distance text). */
  lemma TitleAndAlertInBand(n: int, b: Band)
    requires n >= 0 && InBand(n % Cycle, b)
    ensures GetDirectionInfo(n).title == Title(b)
    ensures GetDirectionInfo(n).icon == IconOf(b)
    ensures GetDirectionInfo(n).onlyAlertOnce == (n % Cycle != Low(b))
  {
  }

  /** The title, and likewise the icon, of a count names its band and no other. */
  lemma TitleIdentifiesBand(n: int, b: Band)
    requires n >= 0
    ensures GetDirectionInfo(n).title == Title(b) <==> InBand(n % Cycle, b)
    ensures GetDirectionInfo(n).icon == IconOf(b) <==> InBand(n % Cycle, b)
  {
    var b' := BandOf(n % Cycle);
    TitleAndAlertInBand(n, b');
    TitlesDistinct(b, b');
  }

  /** A fresh alert sounds exactly at the first index of each band. */
  lemma AlertAtBandStart(n: int)
    requires n >= 0
    ensures !GetDirectionInfo(n).onlyAlertOnce <==> n % Cycle in {0, 10, 20, 25}
  {
    TitleAndAlertInBand(n, BandOf(n % Cycle));
  }

  /** After the first notification, a fresh alert sounds exactly when the title changes. */
  lemma {:induction false} AlertOnDirectionChange(n: int)
    requires n >= 1
    ensures !GetDirectionInfo(n).onlyAlertOnce
            <==> GetDirectionInfo(n).title != GetDirectionInfo(n - 1).title
  {
    var r, q := n % Cycle, (n - 1) % Cycle;
    PreviousCount(n);
    var b, c := BandOf(r), BandOf(q);
    BandChange(r);
    TitleAndAlertInBand(n, b);
    TitleAndAlertInBand(n - 1, c);
    AlertOnBandChange(GetDirectionInfo(n), GetDirectionInfo(n - 1), r, b, c);
  }

  /** The index before r in the cycle. */
  function Previous(r: int): int {
    if r == 0 then Cycle - 1 else r - 1
  }

  lemma PreviousCount(n: int)
    requires n >= 1
    ensures (n - 1) % Cycle == Previous(n % Cycle)
  {
  }

  /** Stepping back from r leaves its band exactly when r is the band's first index. */
  lemma BandChange(r: int)
    requires 0 <= r < Cycle
    ensures BandOf(r) == BandOf(Previous(r)) <==> r != Low(BandOf(r))
  {
  }

  /** The step of AlertOnDirectionChange that only compares the two bands. */
  lemma AlertOnBandChange(now: DirectionInfo, before: DirectionInfo, r: int, b: Band, c: Band)
    requires now.title == Title(b) && before.title == Title(c)
    requires now.onlyAlertOnce == (r != Low(b))
    requires b == c <==> r != Low(b)
    ensures !now.onlyAlertOnce <==> now.title != before.title
  {
    TitlesDistinct(b, c);
  }

  /** The table repeats every 35 notifications. */
  lemma Periodic(n: int)
    requires n >= 0
    ensures GetDirectionInfo(n + Cycle) == GetDirectionInfo(n)
  {
    var r := RepeatingCount(n);
    assert RepeatingCount(n + Cycle) == r;
    var e := Branch(r);
    assert GetDirectionInfo(n + Cycle) == DirectionInfo(e.title, Label(e.distance), e.icon, e.onlyAlertOnce);
  }

  /** Within a band the distance strictly falls as the count rises. */
  lemma DistanceCountsDown(r1: int, r2: int, b: Band)
    requires InBand(r1, b) && InBand(r2, b) && r1 < r2
    ensures Hundredths(Branch(r1).distance) > Hundredths(Branch(r2).distance)
  {
    BranchDistance(r1, b);
    BranchDistance(r2, b);
  }

  /** Every distance lies between the band's last and first distance, reaches the first
      exactly at the band's first index and the last exactly at its last index, and is
      positive. */
  lemma DistanceRange(r: int, b: Band)
    requires InBand(r, b)
    ensures 0 < Last(b) <= Hundredths(Branch(r).distance) <= First(b)
    ensures Hundredths(Branch(r).distance) == First(b) <==> r == Low(b)
    ensures Hundredths(Branch(r).distance) == Last(b) <==> r == High(b) - 1
  {
    BranchDistance(r, b);
  }

  /** Once the Java int counter has wrapped to a negative value, the remainder is negative
      (or zero) and the else branch catches every count off the first index: "Gas Station"
      with a fresh alert on every notification and a distance of 3.6 km to 6.9 km. */
  lemma NegativeCount(n: int)
    requires n < 0
    ensures n % Cycle == 0 ==> GetDirectionInfo(n) == GetDirectionInfo(0)
    ensures n % Cycle != 0 ==>
              && GetDirectionInfo(n).title == "Gas Station"
              && GetDirectionInfo(n).icon == LocalGasStation
              && !GetDirectionInfo(n).onlyAlertOnce
              && Branch(RepeatingCount(n)).distance.unit == Km
              && 360 <= Hundredths(Branch(RepeatingCount(n)).distance) <= 690
  {
    var r := RepeatingCount(n);
    assert r == 0 <==> n % Cycle == 0;
  }

  /** The entries at the first and last index of the bands. The asserts in these bodies
      evaluate the formatter step by step, which the solver does not reliably do on its own. */
  lemma ExamplesStraight()
    ensures GetDirectionInfo(0) == DirectionInfo("Go Straight", "1km", ArrowStraight, false)
    ensures GetDirectionInfo(9) == DirectionInfo("Go Straight", "0.1km", ArrowStraight, true)
  {
    assert Truncate(10, 10) == 100 && Truncate(1, 10) == 10;
    assert NatToString(0) == "0" && NatToString(1) == "1";
    assert FormatHundredths(100) == "1" && FormatHundredths(10) == "0.1";
  }

  lemma ExamplesRightTurn()
    ensures GetDirectionInfo(10) == DirectionInfo("Turn Right", "5km", ArrowRightTurn, false)
    ensures GetDirectionInfo(11) == DirectionInfo("Turn Right", "4.5km", ArrowRightTurn, true)
  {
    assert Truncate(50, 10) == 500 && Truncate(45, 10) == 450;
    assert NatToString(5) == "5" && NatToString(4) == "4";
    assert FormatHundredths(500) == "5" && FormatHundredths(450) == "4.5";
  }

  lemma ExamplesTake520()
    ensures GetDirectionInfo(20) == DirectionInfo("Take 520", "200m", Ic520, false)
    ensures GetDirectionInfo(24) == DirectionInfo("Take 520", "40m", Ic520, true)
  {
    assert Truncate(2000, 10) == 20000 && Truncate(400, 10) == 4000;
    assert NatToString(2) == "2" && NatToString(20) == "20" && NatToString(200) == "200";
    assert NatToString(4) == "4" && NatToString(40) == "40";
    assert FormatHundredths(20000) == "200" && FormatHundredths(4000) == "40";
  }

  lemma ExamplesGasStation()
    ensures GetDirectionInfo(25) == DirectionInfo("Gas Station", "1km", LocalGasStation, false)
    ensures GetDirectionInfo(34) == DirectionInfo("Gas Station", "0.1km", LocalGasStation, true)
  {
    assert Truncate(10, 10) == 100 && Truncate(1, 10) == 10;
    assert NatToString(0) == "0" && NatToString(1) == "1";
    assert FormatHundredths(100) == "1" && FormatHundredths(10) == "0.1";
  }
}
