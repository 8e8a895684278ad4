/** The `TestNoCopy` scenario, with its expected results proved instead of checked. */
module Scenario {
  import opened OrderedIndex
  import opened PriorityCollections

  /**
   * Three colours added in order, yellow promoted once and red twice: red is
   * strictly on top. Yellow is then promoted again and the pops follow.
   */
  method TestNoCopy() {
    var strings := new PriorityCollection<string>();
    var whiteId := strings.Add("white");
    var yellowId := strings.Add("yellow");
    var redId := strings.Add("red");
    assert whiteId == 0 && yellowId == 1 && redId == 2;

    assert strings.Get(whiteId) == "white";
    assert strings.IsValid(redId);

    strings.Promote(yellowId);
    for i := 0 to 2
      invariant strings.Valid()
      invariant strings.objects == ["white", "yellow", "red"]
      invariant strings.prio == [0, 1, i]
    {
      strings.Promote(redId);
    }

    assert IsTop(strings.prio, redId);
    strings.TopIsSelected(redId);
    var top := strings.GetMax();
    assert top.0 == "red";

    strings.Promote(yellowId);
    PopAll(strings, whiteId, yellowId, redId);
  }

  /**
   * From white at 0 and yellow and red tied at 2: red wins the tie on its
   * larger id and is no longer valid once popped, then yellow, then white.
   */
  method PopAll(strings: PriorityCollection<string>, whiteId: int, yellowId: int, redId: int)
    requires strings.Valid()
    requires whiteId == 0 && yellowId == 1 && redId == 2
    requires strings.objects == ["white", "yellow", "red"] && strings.prio == [0, 2, 2]
    modifies strings
  {
    assert IsTop(strings.prio, redId);
    strings.TopIsSelected(redId);
    var value, priority := strings.PopMax();
    assert value == "red" && priority == 2;
    assert !strings.IsValid(redId);

    assert IsTop(strings.prio, yellowId);
    strings.TopIsSelected(yellowId);
    value, priority := strings.PopMax();
    assert value == "yellow" && priority == 2;

    assert IsTop(strings.prio, whiteId);
    strings.TopIsSelected(whiteId);
    value, priority := strings.PopMax();
    assert value == "white" && priority == 0;
  }
}
