/** The module that drives the root's fault inputs. */
module FaultDriver {
  import opened Netlist

  /** One line of the driver: the bit it assigns, the value, and the fault it is labelled with. */
  datatype Line = Line(bit: nat, value: nat, fault: FaultPath)

  datatype DriverModule = DriverModule(width: nat, lines: seq<Line>)

  /** `generate_fault_driver`: one bit per marked fault, each assigned 0. */
  method GenerateFaultDriver(faults: seq<FaultPath>) returns (m: DriverModule)
    ensures m.width == |faults| == |m.lines|
    ensures forall i :: 0 <= i < |faults| ==> m.lines[i] == Line(i, 0, faults[i])
  {
    var body: seq<Line> := [];
    if |faults| == 1 {
      body := body + [Line(0, 0, faults[0])];
    } else {
      for i := 0 to |faults|
        invariant |body| == i
        invariant forall j :: 0 <= j < i ==> body[j] == Line(j, 0, faults[j])
      {
        body := body + [Line(i, 0, faults[i])];
      }
    }
    m := DriverModule(|faults|, body);
  }

  /** One line per marked fault, in order; the values are those generated or written there later. */
  predicate LinesFor(m: DriverModule, faults: seq<FaultPath>) {
    |m.lines| == |faults| &&
    forall i :: 0 <= i < |faults| ==> m.lines[i].bit == i && m.lines[i].fault == faults[i]
  }

  /** The driver's outputs are connected to the fault inputs. */
  ghost predicate Assigned(m: DriverModule, nets: Net -> nat) {
    forall i :: 0 <= i < |m.lines| ==> nets(FaultIn(m.lines[i].bit)) == m.lines[i].value % 2
  }

  function Values(m: DriverModule): (bits: seq<nat>)
    ensures |bits| == |m.lines|
  {
    seq(|m.lines|, i requires 0 <= i < |m.lines| => m.lines[i].value)
  }
}
