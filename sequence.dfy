/** The sequence controls: the range slider with its forward and reverse
    buttons, and the handlers that redraw both layers for the year the
    slider selects. */
module Sequence {
  import opened Wrappers
  import opened JsValues
  import opened Strings
  import opened Features
  import opened Symbols
  import opened Legend

  /** The slider's `max=8`, also the wrap bound of both buttons. */
  const MAX_INDEX := 8
  /** The number of positions of the slider. */
  const YEARS := MAX_INDEX + 1

  /** The forward button: `index++`, then back to 0 past the last year. */
  function NextIndex(i: int): (j: int)
    ensures 0 <= i <= MAX_INDEX ==> 0 <= j <= MAX_INDEX && j == (i + 1) % YEARS
    ensures i >= MAX_INDEX ==> j == 0
  {
    var j := i + 1;
    if j > MAX_INDEX then 0 else j
  }

  /** The reverse button: `index--`, then to the last year below 0. */
  function PrevIndex(i: int): (j: int)
    ensures 0 <= i <= MAX_INDEX ==> 0 <= j <= MAX_INDEX && j == (i - 1) % YEARS
    ensures i <= 0 ==> j == MAX_INDEX
  {
    var j := i - 1;
    if j < 0 then MAX_INDEX else j
  }

  /** On the slider's range the two buttons undo each other. */
  lemma StepsAreInverse(i: int)
    requires 0 <= i <= MAX_INDEX
    ensures PrevIndex(NextIndex(i)) == i
    ensures NextIndex(PrevIndex(i)) == i
  {
  }

  datatype Button = Forward | Reverse

  function Step(i: int, b: Button): int {
    match b
    case Forward => NextIndex(i)
    case Reverse => PrevIndex(i)
  }

  /** The index after clicking the buttons `bs` in order. */
  function Clicks(i: int, bs: seq<Button>): int
    decreases |bs|
  {
    if bs == [] then i else Clicks(Step(i, bs[0]), bs[1..])
  }

  /** No sequence of clicks leaves the slider's range. */
  lemma {:induction false} ClicksStayInRange(i: int, bs: seq<Button>)
    requires 0 <= i <= MAX_INDEX
    ensures 0 <= Clicks(i, bs) <= MAX_INDEX
    decreases |bs|
  {
    if bs != [] {
      ClicksStayInRange(Step(i, bs[0]), bs[1..]);
    }
  }

  /** `n` forward clicks advance the index by `n` modulo the nine years. */
  lemma {:induction false} ForwardClicks(i: int, n: nat)
    requires 0 <= i <= MAX_INDEX
    ensures Clicks(i, seq(n, _ => Forward)) == (i + n) % YEARS
    decreases n
  {
    if n > 0 {
      var bs := seq(n, _ => Forward);
      assert bs[0] == Forward && bs[1..] == seq(n - 1, _ => Forward);
      ForwardClicks(NextIndex(i), n - 1);
    }
  }

  /** `n` reverse clicks move the index back by `n` modulo the nine years. */
  lemma {:induction false} ReverseClicks(i: int, n: nat)
    requires 0 <= i <= MAX_INDEX
    ensures Clicks(i, seq(n, _ => Reverse)) == (i - n) % YEARS
    decreases n
  {
    if n > 0 {
      var bs := seq(n, _ => Reverse);
      assert bs[0] == Reverse && bs[1..] == seq(n - 1, _ => Reverse);
      ReverseClicks(PrevIndex(i), n - 1);
    }
  }

  /** Nine clicks in one direction come back to the starting year. */
  lemma NineClicksReturn(i: int)
    requires 0 <= i <= MAX_INDEX
    ensures Clicks(i, seq(YEARS, _ => Forward)) == i
    ensures Clicks(i, seq(YEARS, _ => Reverse)) == i
  {
    ForwardClicks(i, YEARS);
    ReverseClicks(i, YEARS);
  }

  /** The range slider's value, as the handlers read and write it. */
  class RangeSlider {
    var index: int

    ghost predicate Valid()
      reads this
    {
      0 <= index <= MAX_INDEX
    }

    /** The slider is created with `value=0`. */
    constructor ()
      ensures Valid() && index == 0
    {
      index := 0;
    }

    method Forward()
      modifies this
      ensures index == NextIndex(old(index))
      ensures old(Valid()) ==> Valid()
    {
      index := index + 1;
      index := if index > MAX_INDEX then 0 else index;
    }

    method Reverse()
      modifies this
      ensures index == PrevIndex(old(index))
      ensures old(Valid()) ==> Valid()
    {
      index := index - 1;
      index := if index < 0 then MAX_INDEX else index;
    }

    /** A drag of the slider: the value is taken as it is, no wrap. */
    method SetDirect(value: int)
      modifies this
      ensures index == value
      ensures Valid() <==> 0 <= value <= MAX_INDEX
    {
      index := value;
    }
  }

  /** The state `createSequenceControls` sets up: the slider, the two
      layers, the renewable attribute list, both legends and the
      timestamp label ("Year: " followed by `year`, or by `undefined`). */
  class SequenceControl {
    const attributes: seq<string>
    const ren: array<Marker>
    const fos: array<Marker>
    const slider: RangeSlider
    const propRadius: JsNumber -> JsNumber
    var renLegend: CircleValues
    var fosLegend: CircleValues
    var year: Option<string>

    ghost predicate Valid()
      reads this, slider, ren, fos
    {
      slider.Valid() && |attributes| > MAX_INDEX &&
      forall m :: m in ren[..] ==> m !in fos[..]
    }

    /** The key shown at the current index. */
    function Attribute(): string
      reads this, slider, ren, fos
      requires Valid()
    {
      attributes[slider.index]
    }

    /** `createSequenceControls`: the slider at year 0, the timestamp and
        both legends drawn for the first attribute (the fossil legend for
        its "ren" to "ff" substitute). */
    constructor (attributes: seq<string>, ren: array<Marker>, fos: array<Marker>,
                 propRadius: JsNumber -> JsNumber)
      requires |attributes| > MAX_INDEX
      requires forall m :: m in ren[..] ==> m !in fos[..]
      ensures Valid() && fresh(slider) && slider.index == 0
      ensures this.attributes == attributes && this.ren == ren && this.fos == fos
      ensures this.propRadius == propRadius
      ensures year == YearField(attributes[0])
      ensures renLegend == Summarize(FeaturesOf(ren), attributes[0])
      ensures fosLegend == Summarize(FeaturesOf(fos), FossilKey(attributes[0]))
    {
      var first := attributes[0];
      var renValues := GetCircleValues(ren, first);
      var fosValues := GetCircleValues(fos, FossilKey(first));
      this.attributes := attributes;
      this.ren := ren;
      this.fos := fos;
      this.propRadius := propRadius;
      this.slider := new RangeSlider();
      this.year := YearField(first);
      this.renLegend := renValues;
      this.fosLegend := fosValues;
    }

    /** `updatePropSymbolsRen`: resize the renewable layer for `key`; when
        some marker qualified, redraw the renewable legend and the
        timestamp. */
    method UpdateRen(key: string)
      requires Valid()
      modifies this`renLegend, this`year, ren[..]
      ensures Valid()
      ensures Looks(ren) == Updated(FeaturesOf(ren), old(Looks(ren)), key, propRadius)
      ensures Looks(fos) == old(Looks(fos))
      ensures if AnyQualifies(FeaturesOf(ren), key)
        then renLegend == Summarize(FeaturesOf(ren), key) && year == YearField(key)
        else renLegend == old(renLegend) && year == old(year)
    {
      ghost var fosBefore := Looks(fos);
      var shown := Resize(ren, key, propRadius);
      forall j | 0 <= j < fos.Length
        ensures Looks(fos)[j] == fosBefore[j]
      {
        assert fos[j] in fos[..];
      }
      if shown {
        renLegend := GetCircleValues(ren, key);
        year := YearField(key);
      }
    }

    /** `updatePropSymbolsFos`: derive the fossil key, resize the fossil
        layer for it, and redraw the fossil legend when some marker
        qualified. */
    method UpdateFos(attribute: string)
      requires Valid()
      modifies this`fosLegend, fos[..]
      ensures Valid()
      ensures Looks(fos) == Updated(FeaturesOf(fos), old(Looks(fos)), FossilKey(attribute), propRadius)
      ensures Looks(ren) == old(Looks(ren))
      ensures fosLegend == if AnyQualifies(FeaturesOf(fos), FossilKey(attribute))
        then Summarize(FeaturesOf(fos), FossilKey(attribute)) else old(fosLegend)
    {
      ghost var renBefore := Looks(ren);
      var attributeFos := FossilKey(attribute);
      var shown := Resize(fos, attributeFos, propRadius);
      forall j | 0 <= j < ren.Length
        ensures Looks(ren)[j] == renBefore[j]
      {
        assert ren[j] in ren[..];
      }
      if shown {
        fosLegend := GetCircleValues(fos, attributeFos);
      }
    }

    /** Both updates for the attribute at `index`, as both handlers call
        them. */
    method ShowAttribute(index: int)
      requires Valid() && 0 <= index < |attributes|
      modifies this`renLegend, this`fosLegend, this`year, ren[..], fos[..]
      ensures Valid()
      ensures var key := attributes[index];
        Looks(ren) == Updated(FeaturesOf(ren), old(Looks(ren)), key, propRadius) &&
        Looks(fos) == Updated(FeaturesOf(fos), old(Looks(fos)), FossilKey(key), propRadius)
      ensures var key := attributes[index];
        if AnyQualifies(FeaturesOf(ren), key)
        then renLegend == Summarize(FeaturesOf(ren), key) && year == YearField(key)
        else renLegend == old(renLegend) && year == old(year)
      ensures var key := FossilKey(attributes[index]);
        fosLegend == if AnyQualifies(FeaturesOf(fos), key)
                     then Summarize(FeaturesOf(fos), key) else old(fosLegend)
    {
      UpdateRen(attributes[index]);
      UpdateFos(attributes[index]);
    }

    /** The `.skip` click handler: step the slider, then redraw. */
    method Skip(button: Button)
      requires Valid()
      modifies slider, this`renLegend, this`fosLegend, this`year, ren[..], fos[..]
      ensures Valid()
      ensures slider.index == Step(old(slider.index), button)
      ensures var key := Attribute();
        Looks(ren) == Updated(FeaturesOf(ren), old(Looks(ren)), key, propRadius) &&
        Looks(fos) == Updated(FeaturesOf(fos), old(Looks(fos)), FossilKey(key), propRadius)
      ensures var key := Attribute();
        if AnyQualifies(FeaturesOf(ren), key)
        then renLegend == Summarize(FeaturesOf(ren), key) && year == YearField(key)
        else renLegend == old(renLegend) && year == old(year)
      ensures var key := FossilKey(Attribute());
        fosLegend == if AnyQualifies(FeaturesOf(fos), key)
                     then Summarize(FeaturesOf(fos), key) else old(fosLegend)
    {
      if button == Forward {
        slider.Forward();
      } else {
        slider.Reverse();
      }
      assert Looks(ren) == old(Looks(ren)) && Looks(fos) == old(Looks(fos));
      ShowAttribute(slider.index);
    }

    /** The slider's `input` handler: the dragged value, then redraw. */
    method Input(value: int)
      requires Valid() && 0 <= value <= MAX_INDEX
      modifies slider, this`renLegend, this`fosLegend, this`year, ren[..], fos[..]
      ensures Valid() && slider.index == value
      ensures var key := attributes[value];
        Looks(ren) == Updated(FeaturesOf(ren), old(Looks(ren)), key, propRadius) &&
        Looks(fos) == Updated(FeaturesOf(fos), old(Looks(fos)), FossilKey(key), propRadius)
      ensures var key := attributes[value];
        if AnyQualifies(FeaturesOf(ren), key)
        then renLegend == Summarize(FeaturesOf(ren), key) && year == YearField(key)
        else renLegend == old(renLegend) && year == old(year)
      ensures var key := FossilKey(attributes[value]);
        fosLegend == if AnyQualifies(FeaturesOf(fos), key)
                     then Summarize(FeaturesOf(fos), key) else old(fosLegend)
    {
      slider.SetDirect(value);
      assert Looks(ren) == old(Looks(ren)) && Looks(fos) == old(Looks(fos));
      ShowAttribute(value);
    }
  }
}
