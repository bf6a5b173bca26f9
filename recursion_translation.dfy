/** Ch_09_Binary_Trees/recursive_iterative_translation.cpp: a two-call recursion
    (`foo_recursive`) and its translation to an explicit call stack plus a
    return-value stack (`foo_iterative`). The printed labels are kept as a trace. */
module RecursionTranslation {
  import opened Results

  /** The four program points whose names `foo` prints. */
  datatype Line = Start | A | B | C

  /** `foo_recursive`: the value it returns. */
  function Foo(v: int): int
    decreases v
  {
    if v < 10 then v else Foo(v / 2) + Foo(v - 3)
  }

  /** `foo_recursive`: the labels it prints, in order. */
  function FooTrace(v: int): seq<Line>
    decreases v
  {
    [Start] + if v < 10 then [] else [A] + FooTrace(v / 2) + [B] + FooTrace(v - 3) + [C]
  }

  /** A call-stack entry: the argument of the activation and where it resumes. */
  datatype Frame = Frame(value: int, next: Line)

  /** What one frame, run to completion, does to the return-value stack;
      None when it would read an empty return-value stack. */
  function Apply(f: Frame, rs: seq<int>): Option<seq<int>>
  {
    match f.next
    case Start => Some(rs + [Foo(f.value)])
    case A => Some(rs + [Foo(f.value)])
    case B =>
      if |rs| >= 1 then Some(rs[..|rs| - 1] + [rs[|rs| - 1] + Foo(f.value - 3)]) else None
    case C =>
      if |rs| >= 2 then Some(rs[..|rs| - 2] + [rs[|rs| - 2] + rs[|rs| - 1]]) else None
  }

  /** Running a whole call stack (top = last) from return-value stack `rs`. */
  function Run(cs: seq<Frame>, rs: seq<int>): Option<seq<int>>
    decreases |cs|
  {
    if cs == [] then Some(rs)
    else match Apply(cs[|cs| - 1], rs)
      case None => None
      case Some(rs') => Run(cs[..|cs| - 1], rs')
  }

  /** The labels a frame still has to print. */
  function FrameTrace(f: Frame): seq<Line>
  {
    match f.next
    case Start => FooTrace(f.value)
    case A => [A] + FooTrace(f.value / 2) + [B] + FooTrace(f.value - 3) + [C]
    case B => [B] + FooTrace(f.value - 3) + [C]
    case C => [C]
  }

  /** The labels a call stack still has to print, top frame first. */
  function Pending(cs: seq<Frame>): seq<Line>
    decreases |cs|
  {
    if cs == [] then [] else FrameTrace(cs[|cs| - 1]) + Pending(cs[..|cs| - 1])
  }

  /** A frame resumed past Start belongs to a call that did not return at once. */
  ghost predicate Resumable(cs: seq<Frame>)
  {
    forall k :: 0 <= k < |cs| && cs[k].next != Start ==> cs[k].value >= 10
  }

  lemma RunPush(cs: seq<Frame>, f: Frame, rs: seq<int>)
    ensures Run(cs + [f], rs) ==
      match Apply(f, rs) case None => None case Some(rs') => Run(cs, rs')
  {
    assert (cs + [f])[..|cs|] == cs;
  }

  lemma PendingPush(cs: seq<Frame>, f: Frame)
    ensures Pending(cs + [f]) == FrameTrace(f) + Pending(cs)
  {
    assert (cs + [f])[..|cs|] == cs;
  }

  /** Line Start with `value < 10`: the value itself is returned. */
  lemma StartReturns(rest: seq<Frame>, v: int, rs: seq<int>)
    requires v < 10
    ensures Run(rest + [Frame(v, Start)], rs) == Run(rest, rs + [v])
    ensures Pending(rest + [Frame(v, Start)]) == [Start] + Pending(rest)
  {
    RunPush(rest, Frame(v, Start), rs);
    PendingPush(rest, Frame(v, Start));
  }

  /** Line Start with `value >= 10`: the activation moves on to line A. */
  lemma StartContinues(rest: seq<Frame>, v: int, rs: seq<int>)
    requires v >= 10
    ensures Run(rest + [Frame(v, Start)], rs) == Run(rest + [Frame(v, A)], rs)
  {
    RunPush(rest, Frame(v, Start), rs);
    RunPush(rest, Frame(v, A), rs);
  }

  lemma StartContinuesTrace(rest: seq<Frame>, v: int)
    requires v >= 10
    ensures Pending(rest + [Frame(v, Start)]) == [Start] + Pending(rest + [Frame(v, A)])
  {
    PendingPush(rest, Frame(v, Start));
    PendingPush(rest, Frame(v, A));
  }

  /** Line A: the continuation at B goes under the call on `value / 2`. */
  lemma LineA(rest: seq<Frame>, v: int, rs: seq<int>)
    requires v >= 10
    ensures Run(rest + [Frame(v, A)], rs) == Run(rest + [Frame(v, B), Frame(v / 2, Start)], rs)
  {
    var rs1 := rs + [Foo(v / 2)];
    assert rest + [Frame(v, B), Frame(v / 2, Start)] == (rest + [Frame(v, B)]) + [Frame(v / 2, Start)];
    RunPush(rest + [Frame(v, B)], Frame(v / 2, Start), rs);
    RunPush(rest, Frame(v, B), rs1);
    RunPush(rest, Frame(v, A), rs);
    assert rs1[..|rs1| - 1] + [rs1[|rs1| - 1] + Foo(v - 3)] == rs + [Foo(v)];
  }

  lemma LineATrace(rest: seq<Frame>, v: int)
    ensures Pending(rest + [Frame(v, A)]) == [A] + Pending(rest + [Frame(v, B), Frame(v / 2, Start)])
  {
    var t2, t3, p := FooTrace(v / 2), FooTrace(v - 3), Pending(rest);
    var pb := Pending(rest + [Frame(v, B)]);
    assert Pending(rest + [Frame(v, A)]) == [A] + t2 + [B] + t3 + [C] + p by {
      PendingPush(rest, Frame(v, A));
    }
    assert pb == [B] + t3 + [C] + p by {
      PendingPush(rest, Frame(v, B));
    }
    assert Pending(rest + [Frame(v, B), Frame(v / 2, Start)]) == t2 + pb by {
      assert rest + [Frame(v, B), Frame(v / 2, Start)] == (rest + [Frame(v, B)]) + [Frame(v / 2, Start)];
      PendingPush(rest + [Frame(v, B)], Frame(v / 2, Start));
    }
    Regroup(t2, t3, p);
  }

  lemma Shift(done: seq<Line>, x: Line, rest: seq<Line>)
    ensures done + [x] + rest == done + ([x] + rest)
  {
  }

  lemma Regroup(t2: seq<Line>, t3: seq<Line>, p: seq<Line>)
    ensures [A] + t2 + [B] + t3 + [C] + p == [A] + (t2 + ([B] + t3 + [C] + p))
  {
  }

  /** Line B: the continuation at C goes under the call on `value - 3`. */
  lemma LineB(rest: seq<Frame>, v: int, rs: seq<int>)
    ensures Run(rest + [Frame(v, B)], rs) == Run(rest + [Frame(v, C), Frame(v - 3, Start)], rs)
  {
    var rs1 := rs + [Foo(v - 3)];
    assert rest + [Frame(v, C), Frame(v - 3, Start)] == (rest + [Frame(v, C)]) + [Frame(v - 3, Start)];
    RunPush(rest + [Frame(v, C)], Frame(v - 3, Start), rs);
    RunPush(rest, Frame(v, C), rs1);
    RunPush(rest, Frame(v, B), rs);
    if |rs| >= 1 {
      var rs2 := rs[..|rs| - 1] + [rs[|rs| - 1] + Foo(v - 3)];
      assert rs1[..|rs1| - 2] + [rs1[|rs1| - 2] + rs1[|rs1| - 1]] == rs2;
      assert Apply(Frame(v, C), rs1) == Some(rs2);
      assert Apply(Frame(v, B), rs) == Some(rs2);
    } else {
      assert Apply(Frame(v, C), rs1) == None;
      assert Apply(Frame(v, B), rs) == None;
    }
  }

  lemma LineBTrace(rest: seq<Frame>, v: int)
    ensures Pending(rest + [Frame(v, B)]) == [B] + Pending(rest + [Frame(v, C), Frame(v - 3, Start)])
  {
    var t3, p := FooTrace(v - 3), Pending(rest);
    var pc := Pending(rest + [Frame(v, C)]);
    assert Pending(rest + [Frame(v, B)]) == [B] + t3 + [C] + p by {
      PendingPush(rest, Frame(v, B));
    }
    assert pc == [C] + p by {
      PendingPush(rest, Frame(v, C));
    }
    assert Pending(rest + [Frame(v, C), Frame(v - 3, Start)]) == t3 + pc by {
      assert rest + [Frame(v, C), Frame(v - 3, Start)] == (rest + [Frame(v, C)]) + [Frame(v - 3, Start)];
      PendingPush(rest + [Frame(v, C)], Frame(v - 3, Start));
    }
    RegroupB(t3, p);
  }

  lemma RegroupB(t3: seq<Line>, p: seq<Line>)
    ensures [B] + t3 + [C] + p == [B] + (t3 + ([C] + p))
  {
  }

  /** Line C: `b` is popped, then `a`, and `a + b` is pushed; a successful run
      guarantees the two values are there. */
  lemma LineC(rest: seq<Frame>, v: int, rs: seq<int>)
    requires Run(rest + [Frame(v, C)], rs) != None
    ensures |rs| >= 2
    ensures Run(rest + [Frame(v, C)], rs) == Run(rest, rs[..|rs| - 2] + [rs[|rs| - 2] + rs[|rs| - 1]])
    ensures Pending(rest + [Frame(v, C)]) == [C] + Pending(rest)
  {
    RunPush(rest, Frame(v, C), rs);
    PendingPush(rest, Frame(v, C));
  }

  /** The loop invariant of `foo_iterative`: running what is left of the call
      stack leaves exactly `foo_recursive(inputValue)` on the return-value stack,
      and the labels printed so far followed by those still pending are the
      labels `foo_recursive(inputValue)` prints. */
  ghost predicate Inv(cs: seq<Frame>, rs: seq<int>, trace: seq<Line>, v0: int)
  {
    Resumable(cs) && Run(cs, rs) == Some([Foo(v0)]) && trace + Pending(cs) == FooTrace(v0)
  }

  lemma StepStart(rest: seq<Frame>, v: int, rs: seq<int>, trace: seq<Line>, v0: int)
    requires Inv(rest + [Frame(v, Start)], rs, trace, v0)
    ensures v < 10 ==> Inv(rest, rs + [v], trace + [Start], v0)
    ensures v >= 10 ==> Inv(rest + [Frame(v, A)], rs, trace + [Start], v0)
  {
    var cs := rest + [Frame(v, Start)];
    assert Resumable(rest) by {
      forall k | 0 <= k < |rest| ensures rest[k] == cs[k] { }
    }
    if v < 10 {
      StartReturns(rest, v, rs);
      Shift(trace, Start, Pending(rest));
    } else {
      var cs' := rest + [Frame(v, A)];
      assert Resumable(cs') by {
        forall k | 0 <= k < |cs'| && cs'[k].next != Start ensures cs'[k].value >= 10 {
          if k < |rest| { assert cs'[k] == cs[k]; }
        }
      }
      assert Run(cs', rs) == Some([Foo(v0)]) by { StartContinues(rest, v, rs); }
      assert trace + [Start] + Pending(cs') == FooTrace(v0) by {
        StartContinuesTrace(rest, v);
        Shift(trace, Start, Pending(cs'));
      }
    }
  }

  lemma StepA(rest: seq<Frame>, v: int, rs: seq<int>, trace: seq<Line>, v0: int)
    requires Inv(rest + [Frame(v, A)], rs, trace, v0)
    ensures Inv(rest + [Frame(v, B), Frame(v / 2, Start)], rs, trace + [A], v0)
  {
    var cs := rest + [Frame(v, A)];
    var cs' := rest + [Frame(v, B), Frame(v / 2, Start)];
    assert v >= 10 by { assert cs[|rest|] == Frame(v, A); }
    assert Resumable(cs') by {
      forall k | 0 <= k < |cs'| && cs'[k].next != Start ensures cs'[k].value >= 10 {
        if k < |rest| { assert cs'[k] == cs[k]; }
      }
    }
    assert Run(cs', rs) == Some([Foo(v0)]) by { LineA(rest, v, rs); }
    assert trace + [A] + Pending(cs') == FooTrace(v0) by {
      LineATrace(rest, v);
      Shift(trace, A, Pending(cs'));
    }
  }

  lemma StepB(rest: seq<Frame>, v: int, rs: seq<int>, trace: seq<Line>, v0: int)
    requires Inv(rest + [Frame(v, B)], rs, trace, v0)
    ensures Inv(rest + [Frame(v, C), Frame(v - 3, Start)], rs, trace + [B], v0)
  {
    var cs := rest + [Frame(v, B)];
    var cs' := rest + [Frame(v, C), Frame(v - 3, Start)];
    assert v >= 10 by { assert cs[|rest|] == Frame(v, B); }
    assert Resumable(cs') by {
      forall k | 0 <= k < |cs'| && cs'[k].next != Start ensures cs'[k].value >= 10 {
        if k < |rest| { assert cs'[k] == cs[k]; }
      }
    }
    assert Run(cs', rs) == Some([Foo(v0)]) by { LineB(rest, v, rs); }
    assert trace + [B] + Pending(cs') == FooTrace(v0) by {
      LineBTrace(rest, v);
      Shift(trace, B, Pending(cs'));
    }
  }

  lemma StepC(rest: seq<Frame>, v: int, rs: seq<int>, trace: seq<Line>, v0: int)
    requires Inv(rest + [Frame(v, C)], rs, trace, v0)
    ensures |rs| >= 2
    ensures Inv(rest, rs[..|rs| - 2] + [rs[|rs| - 2] + rs[|rs| - 1]], trace + [C], v0)
  {
    var cs := rest + [Frame(v, C)];
    LineC(rest, v, rs);
    assert Resumable(rest) by {
      forall k | 0 <= k < |rest| ensures rest[k] == cs[k] { }
    }
    Shift(trace, C, Pending(rest));
  }

  /** Two pops leave the stack without its top two entries. */
  lemma PopTwice(s: seq<int>)
    requires |s| >= 2
    ensures s[..|s| - 1][..|s| - 2] == s[..|s| - 2]
  {
  }

  /** `foo_iterative`: returns what `foo_recursive` returns and prints the same
      labels in the same order; on exit the return-value stack holds one value. */
  method FooIterative(inputValue: int) returns (r: int, trace: seq<Line>)
    ensures r == Foo(inputValue)
    ensures trace == FooTrace(inputValue)
  {
    var callStack := [Frame(inputValue, Start)];
    var returnValueStack: seq<int> := [];
    trace := [];
    assert Inv(callStack, returnValueStack, trace, inputValue) by {
      RunPush([], Frame(inputValue, Start), []);
      PendingPush([], Frame(inputValue, Start));
      assert [] + [Frame(inputValue, Start)] == callStack;
      assert returnValueStack + [Foo(inputValue)] == [Foo(inputValue)];
    }
    while callStack != []
      invariant Inv(callStack, returnValueStack, trace, inputValue)
      invariant |trace| <= |FooTrace(inputValue)|
      decreases |FooTrace(inputValue)| - |trace|
    {
      var top := callStack[|callStack| - 1];
      var value := top.value;
      ghost var whole := callStack;
      callStack := callStack[..|callStack| - 1];
      assert callStack + [Frame(value, top.next)] == whole;
      match top.next {
        case Start =>
          StepStart(callStack, value, returnValueStack, trace, inputValue);
          if value < 10 {
            returnValueStack := returnValueStack + [value];
          } else {
            callStack := callStack + [Frame(value, A)];
          }
          trace := trace + [Start];
        case A =>
          StepA(callStack, value, returnValueStack, trace, inputValue);
          callStack := callStack + [Frame(value, B), Frame(value / 2, Start)];
          trace := trace + [A];
        case B =>
          StepB(callStack, value, returnValueStack, trace, inputValue);
          callStack := callStack + [Frame(value, C), Frame(value - 3, Start)];
          trace := trace + [B];
        case C =>
          StepC(callStack, value, returnValueStack, trace, inputValue);
          ghost var before := returnValueStack;
          PopTwice(returnValueStack);
          var b := returnValueStack[|returnValueStack| - 1];
          returnValueStack := returnValueStack[..|returnValueStack| - 1];
          var a := returnValueStack[|returnValueStack| - 1];
          returnValueStack := returnValueStack[..|returnValueStack| - 1];
          returnValueStack := returnValueStack + [a + b];
          assert returnValueStack == before[..|before| - 2] + [before[|before| - 2] + before[|before| - 1]];
          trace := trace + [C];
      }
    }
    assert |returnValueStack| == 1;
    r := returnValueStack[0];
  }
}
