/** The byte budget of a stimulus: two water levels, one for tool results and one for the rest. */
module StimulusBudget {
  import opened Bytes

  const MAX_STIMULUS_BYTES: nat := 64 * 1024
  const TOOL_RESULT_HEAD_BYTES: nat := 6 * 1024
  const TOOL_RESULT_TAIL_BYTES: nat := 2 * 1024
  const TOOL_RESULT_CEILING: nat := TOOL_RESULT_HEAD_BYTES + TOOL_RESULT_TAIL_BYTES
  const TOOL_RESULT_FLOOR_BYTES: nat := 256
  const NOTE_RESERVE: nat := 64
  const OMITTED_RESERVE: nat := 64

  datatype Class = Fixed | Tool | Other

  datatype Slot = Slot(markerLen: nat, want: nat, cls: Class)

  datatype Allocation = Allocation(kept: nat, allowances: seq<nat>)

  function Min(a: nat, b: nat): nat {
    if a <= b then a else b
  }

  function Monus(a: nat, b: nat): nat {
    if a >= b then a - b else 0
  }

  // ---- what is reserved ----

  function Overhead(slots: seq<Slot>, index: nat): nat
    requires index < |slots|
  {
    slots[index].markerLen + (if index == 0 then 0 else 2) + NOTE_RESERVE
  }

  function Floor(slot: Slot): nat {
    if slot.cls == Fixed then slot.want else Min(slot.want, TOOL_RESULT_FLOOR_BYTES)
  }

  function Closing(kept: nat, totalParts: nat): nat {
    if kept < totalParts then OMITTED_RESERVE else 0
  }

  function Overheads(slots: seq<Slot>, k: nat): nat
    requires k <= |slots|
  {
    if k == 0 then 0 else Overheads(slots, k - 1) + Overhead(slots, k - 1)
  }

  /** What the first `k` parts take at their floors. */
  function Minimum(slots: seq<Slot>, k: nat): nat
    requires k <= |slots|
  {
    if k == 0 then 0 else Minimum(slots, k - 1) + Overhead(slots, k - 1) + Floor(slots[k - 1])
  }

  /** The first `k` parts fit the budget at their floors. */
  predicate FitsAtFloors(slots: seq<Slot>, k: nat, totalParts: nat, budget: nat)
    requires k <= |slots|
  {
    Minimum(slots, k) + Closing(k, totalParts) <= budget
  }

  /** The longest prefix, of at most `k` parts, that fits at its floors; one part is always kept. */
  function Kept(slots: seq<Slot>, k: nat, totalParts: nat, budget: nat): (kept: nat)
    requires k <= |slots|
    ensures kept <= k
  {
    if k <= 1 || FitsAtFloors(slots, k, totalParts, budget) then k else Kept(slots, k - 1, totalParts, budget)
  }

  // ---- water levels ----

  /** What `slot` keeps when tool results are capped at `tools` and other parts at `others`. */
  function Allowance(slot: Slot, tools: nat, others: nat): nat {
    match slot.cls
    case Fixed => slot.want
    case Tool => Min(slot.want, tools)
    case Other => Min(slot.want, others)
  }

  function TotalAt(slots: seq<Slot>, tools: nat, others: nat): nat {
    if |slots| == 0 then 0
    else TotalAt(slots[..|slots| - 1], tools, others) + Allowance(slots[|slots| - 1], tools, others)
  }

  /** The largest level in `low..=high` whose total fits, or `low`. */
  function LargestFitting(low: nat, high: nat, capacity: nat, total: nat -> nat): (level: nat)
    ensures level >= low && (level == low || level <= high)
    decreases high
  {
    if high <= low then low
    else if total(high) <= capacity then high
    else LargestFitting(low, high - 1, capacity, total)
  }

  function SumOf(slots: seq<Slot>, cls: Class): nat {
    if |slots| == 0 then 0
    else SumOf(slots[..|slots| - 1], cls) + (if slots[|slots| - 1].cls == cls then slots[|slots| - 1].want else 0)
  }

  /** What the parts of `cls` keep when capped at `level`. */
  function CappedSum(slots: seq<Slot>, cls: Class, level: nat): nat {
    if |slots| == 0 then 0
    else CappedSum(slots[..|slots| - 1], cls, level)
         + (if slots[|slots| - 1].cls == cls then Min(slots[|slots| - 1].want, level) else 0)
  }

  function Widest(slots: seq<Slot>, cls: Class): (w: nat)
    ensures forall s <- slots :: s.cls == cls ==> s.want <= w
  {
    if |slots| == 0 then 0
    else
      var rest, last := Widest(slots[..|slots| - 1], cls), slots[|slots| - 1];
      assert slots == slots[..|slots| - 1] + [last];
      if last.cls == cls && last.want > rest then last.want else rest
  }

  datatype Levels = Levels(tools: nat, others: nat)

  /** The water levels of `slots` in `available` bytes: tool results give way first, down to their floor. */
  function WaterLevels(slots: seq<Slot>, available: nat): Levels {
    var wideTools, wideOthers := Widest(slots, Tool), Widest(slots, Other);
    if TotalAt(slots, wideTools, wideOthers) <= available then Levels(wideTools, wideOthers)
    else if TotalAt(slots, TOOL_RESULT_FLOOR_BYTES, wideOthers) <= available then
      Levels(LargestFitting(TOOL_RESULT_FLOOR_BYTES, TOOL_RESULT_CEILING, available,
                            (level: nat) => TotalAt(slots, level, wideOthers)), wideOthers)
    else
      Levels(TOOL_RESULT_FLOOR_BYTES,
             LargestFitting(TOOL_RESULT_FLOOR_BYTES, wideOthers, available,
                            (level: nat) => TotalAt(slots, TOOL_RESULT_FLOOR_BYTES, level)))
  }

  function Allowances(slots: seq<Slot>, levels: Levels): (allowances: seq<nat>)
    ensures |allowances| == |slots|
    ensures forall i :: 0 <= i < |slots| ==> allowances[i] == Allowance(slots[i], levels.tools, levels.others)
  {
    seq(|slots|, i requires 0 <= i < |slots| => Allowance(slots[i], levels.tools, levels.others))
  }

  function Available(slots: seq<Slot>, kept: nat, totalParts: nat, budget: nat): nat
    requires kept <= |slots|
  {
    Monus(budget, Overheads(slots, kept) + Closing(kept, totalParts))
  }

  /** How many leading parts are shown and how many content bytes each may keep. */
  function Allocated(slots: seq<Slot>, totalParts: nat, budget: nat): (a: Allocation)
    ensures a.kept <= |slots| && |a.allowances| == a.kept
  {
    var kept := Kept(slots, |slots|, totalParts, budget);
    var shown := slots[..kept];
    Allocation(kept, Allowances(shown, WaterLevels(shown, Available(slots, kept, totalParts, budget))))
  }

  // ---- the code, against these functions ----

  method LargestLevel(low0: nat, high0: nat, capacity: nat, total: nat -> nat) returns (level: nat)
    requires forall a: nat, b: nat :: a <= b ==> total(a) <= total(b)
    ensures level == LargestFitting(low0, high0, capacity, total)
  {
    var low, high := low0, high0;
    if high <= low {
      return low;
    }
    if total(high) <= capacity {
      return high;
    }
    SkipTo(low0, high, high0, capacity, total);
    while high - low > 1
      invariant low0 <= low < high <= high0
      invariant total(high) > capacity && (low == low0 || total(low) <= capacity)
      invariant LargestFitting(low0, high0, capacity, total) == LargestFitting(low0, high, capacity, total)
      decreases high - low
    {
      var middle := low + (high - low) / 2;
      if total(middle) <= capacity {
        low := middle;
      } else {
        SkipTo(low0, middle, high, capacity, total);
        high := middle;
      }
    }
    level := low;
  }

  // Levels that do not fit are passed over.
  lemma {:induction false} SkipTo(low: nat, middle: nat, high: nat, capacity: nat, total: nat -> nat)
    requires low < middle <= high && total(middle) > capacity
    requires forall a: nat, b: nat :: a <= b ==> total(a) <= total(b)
    ensures LargestFitting(low, high, capacity, total) == LargestFitting(low, middle, capacity, total)
  {
    if middle < high {
      assert total(high) > capacity;
      SkipTo(low, middle, high - 1, capacity, total);
    }
  }

  lemma {:induction false} TotalByClass(slots: seq<Slot>, tools: nat, others: nat)
    ensures TotalAt(slots, tools, others)
         == SumOf(slots, Fixed) + CappedSum(slots, Tool, tools) + CappedSum(slots, Other, others)
  {
    if |slots| > 0 {
      TotalByClass(slots[..|slots| - 1], tools, others);
    }
  }

  lemma {:induction false} CappedAtWidest(slots: seq<Slot>, cls: Class, level: nat)
    requires forall s <- slots :: s.cls == cls ==> s.want <= level
    ensures CappedSum(slots, cls, level) == SumOf(slots, cls)
  {
    if |slots| > 0 {
      CappedAtWidest(slots[..|slots| - 1], cls, level);
    }
  }

  lemma {:induction false} TotalRises(slots: seq<Slot>, t1: nat, t2: nat, o1: nat, o2: nat)
    requires t1 <= t2 && o1 <= o2
    ensures TotalAt(slots, t1, o1) <= TotalAt(slots, t2, o2)
  {
    if |slots| > 0 {
      TotalRises(slots[..|slots| - 1], t1, t2, o1, o2);
    }
  }

  lemma {:induction false} LargestOfSame(low: nat, high: nat, c1: nat, c2: nat, f: nat -> nat, g: nat -> nat)
    requires forall l: nat :: low < l <= high ==> (f(l) <= c1 <==> g(l) <= c2)
    ensures LargestFitting(low, high, c1, f) == LargestFitting(low, high, c2, g)
    decreases high
  {
    if high > low {
      LargestOfSame(low, high - 1, c1, c2, f, g);
    }
  }

  /** What the first `k` slots take at their floors, for every `k`. */
  method Minimums(slots: seq<Slot>) returns (minimum: seq<nat>)
    ensures |minimum| == |slots| + 1 && forall k :: 0 <= k <= |slots| ==> minimum[k] == Minimum(slots, k)
  {
    minimum := [0];
    for index := 0 to |slots|
      invariant |minimum| == index + 1 && forall k :: 0 <= k <= index ==> minimum[k] == Minimum(slots, k)
    {
      minimum := minimum + [minimum[index] + Overhead(slots, index) + Floor(slots[index])];
    }
  }

  method KeptCount(slots: seq<Slot>, totalParts: nat, budget: nat) returns (kept: nat)
    ensures kept == Kept(slots, |slots|, totalParts, budget)
  {
    hide Minimum;
    var minimum := Minimums(slots);
    kept := |slots|;
    while kept > 1
      invariant kept <= |slots|
      invariant Kept(slots, |slots|, totalParts, budget) == Kept(slots, kept, totalParts, budget)
    {
      if minimum[kept] + Closing(kept, totalParts) <= budget {
        break;
      }
      kept := kept - 1;
    }
  }

  method Allocate(slots: seq<Slot>, totalParts: nat, budget: nat) returns (kept: nat, allowances: seq<nat>)
    ensures Allocation(kept, allowances) == Allocated(slots, totalParts, budget)
  {
    kept := KeptCount(slots, totalParts, budget);
    var reserved := 0;
    for index := 0 to kept
      invariant reserved == Overheads(slots, index)
    {
      reserved := reserved + Overhead(slots, index);
    }
    var available := Monus(budget, reserved + Closing(kept, totalParts));
    allowances := ShareOut(slots[..kept], available);
  }

  method ShareOut(slots: seq<Slot>, available: nat) returns (allowances: seq<nat>)
    ensures allowances == Allowances(slots, WaterLevels(slots, available))
  {
    hide SumOf, CappedSum, TotalAt, Widest;
    var fixed, tools, other := SumOf(slots, Fixed), SumOf(slots, Tool), SumOf(slots, Other);
    ghost var wideTools, wideOthers := Widest(slots, Tool), Widest(slots, Other);
    TotalsByClass(slots);
    if fixed + tools + other <= available {
      return seq(|slots|, i requires 0 <= i < |slots| => slots[i].want);
    }
    if fixed + other + CappedSum(slots, Tool, TOOL_RESULT_FLOOR_BYTES) <= available {
      var level := ToolLevel(slots, fixed + other, available);
      allowances := seq(|slots|, i requires 0 <= i < |slots| =>
        if slots[i].cls == Tool then Min(slots[i].want, level) else slots[i].want);
    } else {
      var floors := fixed + CappedSum(slots, Tool, TOOL_RESULT_FLOOR_BYTES);
      var level := OtherLevel(slots, available, floors);
      allowances := seq(|slots|, i requires 0 <= i < |slots| =>
        match slots[i].cls
        case Tool => Min(slots[i].want, TOOL_RESULT_FLOOR_BYTES)
        case Other => Min(slots[i].want, level)
        case Fixed => slots[i].want);
    }
  }

  // The totals the code adds up class by class are the totals at the water levels.
  lemma TotalsByClass(slots: seq<Slot>)
    ensures var wideTools, wideOthers := Widest(slots, Tool), Widest(slots, Other);
            && TotalAt(slots, wideTools, wideOthers) == SumOf(slots, Fixed) + SumOf(slots, Tool) + SumOf(slots, Other)
            && TotalAt(slots, TOOL_RESULT_FLOOR_BYTES, wideOthers)
            == SumOf(slots, Fixed) + CappedSum(slots, Tool, TOOL_RESULT_FLOOR_BYTES) + SumOf(slots, Other)
  {
    var wideTools, wideOthers := Widest(slots, Tool), Widest(slots, Other);
    CappedAtWidest(slots, Tool, wideTools);
    CappedAtWidest(slots, Other, wideOthers);
    TotalByClass(slots, wideTools, wideOthers);
    TotalByClass(slots, TOOL_RESULT_FLOOR_BYTES, wideOthers);
  }

  method ToolLevel(slots: seq<Slot>, others: nat, available: nat) returns (level: nat)
    requires others == SumOf(slots, Fixed) + SumOf(slots, Other)
    ensures level == LargestFitting(TOOL_RESULT_FLOOR_BYTES, TOOL_RESULT_CEILING, available,
                                    (l: nat) => TotalAt(slots, l, Widest(slots, Other)))
  {
    var total: nat -> nat := (l: nat) => others + CappedSum(slots, Tool, l);
    forall a: nat, b: nat | a <= b
      ensures total(a) <= total(b)
    {
      CappedRises(slots, Tool, a, b);
    }
    level := LargestLevel(TOOL_RESULT_FLOOR_BYTES, TOOL_RESULT_CEILING, available, total);
    ghost var wideOthers := Widest(slots, Other);
    forall l: nat
      ensures total(l) == TotalAt(slots, l, wideOthers)
    {
      CappedAtWidest(slots, Other, wideOthers);
      TotalByClass(slots, l, wideOthers);
    }
    LargestOfSame(TOOL_RESULT_FLOOR_BYTES, TOOL_RESULT_CEILING, available, available, total,
                  (l: nat) => TotalAt(slots, l, wideOthers));
  }

  method OtherLevel(slots: seq<Slot>, available: nat, floors: nat) returns (level: nat)
    requires floors == SumOf(slots, Fixed) + CappedSum(slots, Tool, TOOL_RESULT_FLOOR_BYTES)
    ensures level == LargestFitting(TOOL_RESULT_FLOOR_BYTES, Widest(slots, Other), available,
                                    (l: nat) => TotalAt(slots, TOOL_RESULT_FLOOR_BYTES, l))
  {
    var room := Monus(available, floors);
    var widest := Widest(slots, Other);
    var total: nat -> nat := (l: nat) => CappedSum(slots, Other, l);
    forall a: nat, b: nat | a <= b
      ensures total(a) <= total(b)
    {
      CappedRises(slots, Other, a, b);
    }
    level := LargestLevel(TOOL_RESULT_FLOOR_BYTES, widest, room, total);
    forall l: nat | TOOL_RESULT_FLOOR_BYTES < l <= widest
      ensures total(l) <= room <==> TotalAt(slots, TOOL_RESULT_FLOOR_BYTES, l) <= available
    {
      TotalByClass(slots, TOOL_RESULT_FLOOR_BYTES, l);
      CappedIsPositive(slots, Other, l);
    }
    LargestOfSame(TOOL_RESULT_FLOOR_BYTES, widest, room, available, total,
                  (l: nat) => TotalAt(slots, TOOL_RESULT_FLOOR_BYTES, l));
  }

  lemma {:induction false} CappedRises(slots: seq<Slot>, cls: Class, a: nat, b: nat)
    requires a <= b
    ensures CappedSum(slots, cls, a) <= CappedSum(slots, cls, b)
  {
    if |slots| > 0 {
      CappedRises(slots[..|slots| - 1], cls, a, b);
    }
  }

  lemma {:induction false} CappedIsPositive(slots: seq<Slot>, cls: Class, level: nat)
    requires level > 0 && Widest(slots, cls) > 0
    ensures CappedSum(slots, cls, level) > 0
  {
    var rest := slots[..|slots| - 1];
    if Widest(rest, cls) > 0 {
      CappedIsPositive(rest, cls, level);
    }
  }

  // ---- what an allocation promises ----

  /** The longest prefix that fits is kept: no longer one fits even at floors. */
  lemma {:induction false} KeptIsLongest(slots: seq<Slot>, k: nat, totalParts: nat, budget: nat)
    requires k <= |slots|
    ensures var kept := Kept(slots, k, totalParts, budget);
            && (k >= 1 ==> kept >= 1)
            && (kept > 1 ==> FitsAtFloors(slots, kept, totalParts, budget))
            && forall j :: kept < j <= k ==> !FitsAtFloors(slots, j, totalParts, budget)
  {
    if k > 1 && !FitsAtFloors(slots, k, totalParts, budget) {
      KeptIsLongest(slots, k - 1, totalParts, budget);
    }
  }

  /** What one more part adds at its floor: its marker, the separator before it, the place of a note, and what it
      wants up to 256 bytes, or all of a withheld note. */
  lemma FloorsAdd(slots: seq<Slot>, k: nat)
    requires k < |slots|
    ensures Minimum(slots, 0) == 0
    ensures Minimum(slots, k + 1) == Minimum(slots, k) + slots[k].markerLen + (if k == 0 then 0 else 2) + 64
                                     + (if slots[k].cls == Fixed || slots[k].want < 256 then slots[k].want else 256)
  {
  }

  /** The parts kept are the longest prefix that fits at its floors, with 64 bytes left for the closing note when it
      is not all of the parts; one part is kept in any case. */
  lemma AllocatedIsLongest(slots: seq<Slot>, totalParts: nat, budget: nat)
    requires slots != []
    ensures var kept := Allocated(slots, totalParts, budget).kept;
            && 1 <= kept <= |slots|
            && (kept > 1 ==> Minimum(slots, kept) + (if kept < totalParts then 64 else 0) <= budget)
            && forall j :: kept < j <= |slots| ==> Minimum(slots, j) + (if j < totalParts then 64 else 0) > budget
  {
    hide Minimum;
    KeptIsLongest(slots, |slots|, totalParts, budget);
    forall j | Allocated(slots, totalParts, budget).kept < j <= |slots|
      ensures Minimum(slots, j) + (if j < totalParts then 64 else 0) > budget
    {
      assert !FitsAtFloors(slots, j, totalParts, budget);
    }
  }

  lemma {:induction false} FittingIsLargest(low: nat, high: nat, capacity: nat, total: nat -> nat)
    requires total(low) <= capacity
    ensures var level := LargestFitting(low, high, capacity, total);
            total(level) <= capacity && (level < high ==> total(level + 1) > capacity)
    decreases high
  {
    if high > low && total(high) > capacity {
      FittingIsLargest(low, high - 1, capacity, total);
    }
  }

  lemma {:induction false} SumOfAllowances(slots: seq<Slot>, levels: Levels)
    ensures Sum(Allowances(slots, levels)) == TotalAt(slots, levels.tools, levels.others)
  {
    if |slots| > 0 {
      var init := slots[..|slots| - 1];
      SumOfAllowances(init, levels);
      assert Allowances(slots, levels)[..|slots| - 1] == Allowances(init, levels);
    }
  }

  lemma {:induction false} MinimumIsFloors(slots: seq<Slot>, k: nat)
    requires k <= |slots|
    ensures Minimum(slots, k)
         == Overheads(slots, k) + TotalAt(slots[..k], TOOL_RESULT_FLOOR_BYTES, TOOL_RESULT_FLOOR_BYTES)
  {
    if k > 0 {
      MinimumIsFloors(slots, k - 1);
      assert slots[..k][..k - 1] == slots[..k - 1];
    }
  }

  predicate IsShrunk(slots: seq<Slot>, allowances: seq<nat>, i: nat, cls: Class)
    requires |allowances| == |slots| && i < |slots|
  {
    slots[i].cls == cls && allowances[i] < slots[i].want
  }

  predicate AnyShrunk(slots: seq<Slot>, allowances: seq<nat>, cls: Class)
    requires |allowances| == |slots|
  {
    exists i | 0 <= i < |slots| :: IsShrunk(slots, allowances, i, cls)
  }

  /** The allowances with one more byte for every shrunk part of `cls`. */
  function Raised(slots: seq<Slot>, allowances: seq<nat>, cls: Class): (raised: seq<nat>)
    requires |allowances| == |slots|
    ensures |raised| == |slots|
  {
    seq(|slots|, i requires 0 <= i < |slots| =>
      if IsShrunk(slots, allowances, i, cls) then allowances[i] + 1 else allowances[i])
  }

  /** Between floor and want, evenly within a class, and tool results first. */
  ghost predicate IsFair(slots: seq<Slot>, allowances: seq<nat>) {
    && |allowances| == |slots|
    && (forall i :: 0 <= i < |slots| ==> Floor(slots[i]) <= allowances[i] <= slots[i].want)
    && (forall i, j :: 0 <= i < |slots| && 0 <= j < |slots| ==>
          IsShrunk(slots, allowances, i, slots[j].cls) ==> allowances[j] <= allowances[i])
    && (forall i, j :: 0 <= i < |slots| && 0 <= j < |slots| && slots[j].cls == Tool ==>
          IsShrunk(slots, allowances, i, Other) ==> allowances[j] == Floor(slots[j]))
  }

  /** The allowances fit, and one more byte for every shrunk part of the class that gives way does not. */
  ghost predicate IsTight(slots: seq<Slot>, allowances: seq<nat>, available: nat)
    requires |allowances| == |slots|
  {
    && Sum(allowances) <= available
    && (AnyShrunk(slots, allowances, Other) ==> Sum(Raised(slots, allowances, Other)) > available)
    && (AnyShrunk(slots, allowances, Tool) && !AnyShrunk(slots, allowances, Other) ==>
          Sum(Raised(slots, allowances, Tool)) > available)
  }

  ghost predicate IsFairAndTight(slots: seq<Slot>, allowances: seq<nat>, available: nat) {
    IsFair(slots, allowances) && IsTight(slots, allowances, available)
  }

  lemma RaisedIsNextLevel(slots: seq<Slot>, levels: Levels, cls: Class)
    requires cls != Fixed
    ensures Raised(slots, Allowances(slots, levels), cls)
         == Allowances(slots, if cls == Tool then Levels(levels.tools + 1, levels.others)
                              else Levels(levels.tools, levels.others + 1))
  {
  }

  lemma RaisedOfWhole(slots: seq<Slot>, allowances: seq<nat>, cls: Class)
    requires |allowances| == |slots|
    ensures !AnyShrunk(slots, allowances, cls) ==> Raised(slots, allowances, cls) == allowances
  {
  }

  lemma AtWidestNothingShrinks(slots: seq<Slot>, levels: Levels, cls: Class)
    requires cls == Tool ==> levels.tools >= Widest(slots, Tool)
    requires cls == Other ==> levels.others >= Widest(slots, Other)
    ensures !AnyShrunk(slots, Allowances(slots, levels), cls)
  {
    forall i | 0 <= i < |slots|
      ensures !IsShrunk(slots, Allowances(slots, levels), i, cls)
    {
      assert slots[i] in slots;
    }
  }

  /** The two water levels share out what is available fairly, tool results first, and tightly. */
  lemma WaterLevelsAreFairAndTight(slots: seq<Slot>, available: nat)
    requires TotalAt(slots, TOOL_RESULT_FLOOR_BYTES, TOOL_RESULT_FLOOR_BYTES) <= available
    requires forall s <- slots :: s.cls == Tool ==> s.want <= TOOL_RESULT_CEILING
    ensures IsFairAndTight(slots, Allowances(slots, WaterLevels(slots, available)), available)
  {
    hide WaterLevels, TotalAt, Widest, IsFair, IsTight;
    var levels := WaterLevels(slots, available);
    WaterLevelsFit(slots, available);
    LevelsAreFair(slots, levels);
    LevelsAreTight(slots, levels, available);
  }

  lemma LevelsAreTight(slots: seq<Slot>, levels: Levels, available: nat)
    requires TotalAt(slots, levels.tools, levels.others) <= available
    requires || (levels.tools == Widest(slots, Tool) && levels.others == Widest(slots, Other))
             || (levels.others == Widest(slots, Other) && TotalAt(slots, levels.tools + 1, levels.others) > available)
             || TotalAt(slots, levels.tools, levels.others + 1) > available
    ensures IsTight(slots, Allowances(slots, levels), available)
  {
    hide TotalAt, Widest, Sum, Raised, AnyShrunk;
    SumOfAllowances(slots, levels);
    SumOfAllowances(slots, Levels(levels.tools + 1, levels.others));
    SumOfAllowances(slots, Levels(levels.tools, levels.others + 1));
    RaisedIsNextLevel(slots, levels, Tool);
    RaisedIsNextLevel(slots, levels, Other);
    hide Allowances;
    RaisedOfWhole(slots, Allowances(slots, levels), Other);
    if levels.others >= Widest(slots, Other) {
      AtWidestNothingShrinks(slots, levels, Other);
    }
    if levels.tools >= Widest(slots, Tool) {
      AtWidestNothingShrinks(slots, levels, Tool);
    }
  }

  lemma LevelsAreFair(slots: seq<Slot>, levels: Levels)
    requires levels.tools >= TOOL_RESULT_FLOOR_BYTES || levels.tools >= Widest(slots, Tool)
    requires levels.others >= TOOL_RESULT_FLOOR_BYTES || levels.others >= Widest(slots, Other)
    requires levels.others >= Widest(slots, Other) || levels.tools == TOOL_RESULT_FLOOR_BYTES
    ensures IsFair(slots, Allowances(slots, levels))
  {
    hide Widest, Allowance, Floor;
    var allowances := Allowances(slots, levels);
    forall i | 0 <= i < |slots|
      ensures slots[i].cls != Fixed ==> slots[i].want <= Widest(slots, slots[i].cls)
      ensures Floor(slots[i]) <= allowances[i] <= slots[i].want
    {
      assert slots[i] in slots;
      FairBounds(slots[i], levels, Widest(slots, Tool), Widest(slots, Other));
    }
    forall i, j | 0 <= i < |slots| && 0 <= j < |slots|
      ensures IsShrunk(slots, allowances, i, slots[j].cls) ==> allowances[j] <= allowances[i]
      ensures slots[j].cls == Tool && IsShrunk(slots, allowances, i, Other) ==> allowances[j] == Floor(slots[j])
    {
      FairPair(slots[i], slots[j], levels, Widest(slots, Other));
    }
  }

  lemma FairBounds(s: Slot, levels: Levels, tools: nat, others: nat)
    requires levels.tools >= TOOL_RESULT_FLOOR_BYTES || levels.tools >= tools
    requires levels.others >= TOOL_RESULT_FLOOR_BYTES || levels.others >= others
    requires (s.cls == Tool ==> s.want <= tools) && (s.cls == Other ==> s.want <= others)
    ensures Floor(s) <= Allowance(s, levels.tools, levels.others) <= s.want
  {
  }

  lemma FairPair(s: Slot, o: Slot, levels: Levels, others: nat)
    requires levels.others >= others || levels.tools == TOOL_RESULT_FLOOR_BYTES
    requires s.cls == Other ==> s.want <= others
    ensures s.cls == o.cls && Allowance(s, levels.tools, levels.others) < s.want ==>
      Allowance(o, levels.tools, levels.others) <= Allowance(s, levels.tools, levels.others)
    ensures o.cls == Tool && s.cls == Other && Allowance(s, levels.tools, levels.others) < s.want ==>
      Allowance(o, levels.tools, levels.others) == Floor(o)
  {
  }

  // Either every part is whole, or exactly one class gives way, and its next level does not fit.
  lemma WaterLevelsFit(slots: seq<Slot>, available: nat)
    requires TotalAt(slots, TOOL_RESULT_FLOOR_BYTES, TOOL_RESULT_FLOOR_BYTES) <= available
    requires forall s <- slots :: s.cls == Tool ==> s.want <= TOOL_RESULT_CEILING
    ensures var l := WaterLevels(slots, available);
            var wideTools, wideOthers := Widest(slots, Tool), Widest(slots, Other);
            && TotalAt(slots, l.tools, l.others) <= available
            && (|| (l.tools == wideTools && l.others == wideOthers)
                || (l.tools >= TOOL_RESULT_FLOOR_BYTES && l.others == wideOthers
                    && TotalAt(slots, l.tools + 1, l.others) > available)
                || (l.tools == TOOL_RESULT_FLOOR_BYTES && l.others >= TOOL_RESULT_FLOOR_BYTES
                    && TotalAt(slots, l.tools, l.others + 1) > available))
  {
    var wideTools, wideOthers := Widest(slots, Tool), Widest(slots, Other);
    hide TotalAt, Widest;
    if TotalAt(slots, wideTools, wideOthers) > available {
      if TotalAt(slots, TOOL_RESULT_FLOOR_BYTES, wideOthers) <= available {
        var total: nat -> nat := (level: nat) => TotalAt(slots, level, wideOthers);
        FittingIsLargest(TOOL_RESULT_FLOOR_BYTES, TOOL_RESULT_CEILING, available, total);
        WidestIsBounded(slots, Tool, TOOL_RESULT_CEILING);
        TotalRises(slots, wideTools, TOOL_RESULT_CEILING, wideOthers, wideOthers);
      } else {
        var total: nat -> nat := (level: nat) => TotalAt(slots, TOOL_RESULT_FLOOR_BYTES, level);
        FittingIsLargest(TOOL_RESULT_FLOOR_BYTES, wideOthers, available, total);
        if wideOthers <= TOOL_RESULT_FLOOR_BYTES {
          TotalRises(slots, TOOL_RESULT_FLOOR_BYTES, TOOL_RESULT_FLOOR_BYTES, wideOthers, TOOL_RESULT_FLOOR_BYTES);
        }
      }
    }
  }

  lemma {:induction false} WidestIsBounded(slots: seq<Slot>, cls: Class, bound: nat)
    requires forall s <- slots :: s.cls == cls ==> s.want <= bound
    ensures Widest(slots, cls) <= bound
  {
    if |slots| > 0 {
      WidestIsBounded(slots[..|slots| - 1], cls, bound);
    }
  }

  /**
   * The allocation promise: whenever the kept parts fit at their floors (always, when more than one is kept),
   * the markers, separators, notes and allowances come to at most the budget, and the sharing is fair and tight.
   */
  lemma AllocationIsFairAndTight(slots: seq<Slot>, totalParts: nat, budget: nat)
    requires forall s <- slots :: s.cls == Tool ==> s.want <= TOOL_RESULT_CEILING
    requires FitsAtFloors(slots, Allocated(slots, totalParts, budget).kept, totalParts, budget)
    ensures var a := Allocated(slots, totalParts, budget);
            && Overheads(slots, a.kept) + Closing(a.kept, totalParts) + Sum(a.allowances) <= budget
            && IsFairAndTight(slots[..a.kept], a.allowances, Available(slots, a.kept, totalParts, budget))
  {
    var a := Allocated(slots, totalParts, budget);
    MinimumIsFloors(slots, a.kept);
    WaterLevelsAreFairAndTight(slots[..a.kept], Available(slots, a.kept, totalParts, budget));
  }
}
