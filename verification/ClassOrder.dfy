/** The order in which classes are searched: how lro_build puts it together and why it is a good one
    (src/object.c:191-238). */
module ClassOrder {

  /** The inner loop of lro_build: the classes of one base that are not there yet, in its order. */
  ghost function AddLine<T>(done: seq<T>, line: seq<T>): seq<T>
    decreases |line|
  {
    if line == [] then done
    else AddLine(if line[0] in done then done else done + [line[0]], line[1..])
  }

  ghost function AddLines<T>(done: seq<T>, lines: seq<seq<T>>): seq<T>
    decreases |lines|
  {
    if lines == [] then done else AddLines(AddLine(done, lines[0]), lines[1..])
  }

  /** The order of a new class, given the orders of its bases. */
  ghost function Linearize<T>(any: T, lines: seq<seq<T>>, self: T): seq<T> {
    AddLines([any], lines) + [self]
  }

  ghost predicate NoDuplicates<T>(s: seq<T>) {
    forall i, j :: 0 <= i < j < |s| ==> s[i] != s[j]
  }

  /** Every class comes after all of its own ancestors. */
  ghost predicate AncestorsFirst<T>(order: map<T, seq<T>>, s: seq<T>) {
    forall i, c :: 0 <= i < |s| && s[i] in order && c in order[s[i]] ==> c in s[..i + 1]
  }

  lemma {:induction false} AddLineKeeps<T>(order: map<T, seq<T>>, done: seq<T>, line: seq<T>, whole: seq<T>, k: nat)
    requires NoDuplicates(done) && AncestorsFirst(order, done)
    requires k <= |whole| && line == whole[k..] && AncestorsFirst(order, whole)
    requires forall c :: c in whole[..k] ==> c in done
    ensures done <= AddLine(done, line)
    ensures NoDuplicates(AddLine(done, line)) && AncestorsFirst(order, AddLine(done, line))
    ensures forall c :: c in AddLine(done, line) ==> c in done || c in line
    ensures forall c :: c in line ==> c in AddLine(done, line)
    decreases |line|
  {
    if line != [] {
      var c := line[0];
      var next := if c in done then done else done + [c];
      assert whole[..k + 1] == whole[..k] + [c];
      if c !in done {
        forall i, a | 0 <= i < |next| && next[i] in order && a in order[next[i]]
          ensures a in next[..i + 1]
        {
          if i < |done| {
            assert next[..i + 1] == done[..i + 1];
          } else {
            assert whole[k] == c && a in whole[..k + 1];
            assert next[..i + 1] == next;
          }
        }
      }
      AddLineKeeps(order, next, line[1..], whole, k + 1);
      assert line == [c] + line[1..];
      var i :| 0 <= i < |next| && next[i] == c;
      assert AddLine(done, line)[i] == c;
    }
  }

  lemma {:induction false} AddLinesKeeps<T>(order: map<T, seq<T>>, done: seq<T>, lines: seq<seq<T>>)
    requires NoDuplicates(done) && AncestorsFirst(order, done)
    requires forall l :: 0 <= l < |lines| ==> AncestorsFirst(order, lines[l])
    ensures done <= AddLines(done, lines)
    ensures NoDuplicates(AddLines(done, lines)) && AncestorsFirst(order, AddLines(done, lines))
    ensures forall c :: c in AddLines(done, lines) ==> c in done || exists l :: 0 <= l < |lines| && c in lines[l]
    ensures forall l, c :: 0 <= l < |lines| && c in lines[l] ==> c in AddLines(done, lines)
    decreases |lines|
  {
    if lines != [] {
      AddLineKeeps(order, done, lines[0], lines[0], 0);
      AddLinesKeeps(order, AddLine(done, lines[0]), lines[1..]);
      forall l, c | 0 <= l < |lines| && c in lines[l]
        ensures c in AddLines(done, lines)
      {
        if l > 0 {
          assert c in lines[1..][l - 1];
        }
      }
      forall c | c in AddLines(done, lines)
        ensures c in done || exists l :: 0 <= l < |lines| && c in lines[l]
      {
        if c !in done && c !in lines[0] {
          var l :| 0 <= l < |lines[1..]| && c in lines[1..][l];
          assert c in lines[l + 1];
        }
      }
    }
  }

  /** A line without repeats, none of whose classes is there already, is appended as it is. */
  lemma {:induction false} AddNewLine<T>(done: seq<T>, line: seq<T>)
    requires NoDuplicates(line) && forall c :: c in line ==> c !in done
    ensures AddLine(done, line) == done + line
    decreases |line|
  {
    if line == [] {
      assert done + line == done;
    } else {
      assert line == [line[0]] + line[1..];
      assert forall i :: 0 < i < |line| ==> line[i] != line[0];
      AddNewLine(done + [line[0]], line[1..]);
      assert done + [line[0]] + line[1..] == done + line;
    }
  }

  lemma {:induction false} AddLinesExtends<T>(done: seq<T>, lines: seq<seq<T>>)
    ensures done <= AddLines(done, lines)
    decreases |lines|
  {
    if lines != [] {
      AddLineExtends(done, lines[0]);
      AddLinesExtends(AddLine(done, lines[0]), lines[1..]);
    }
  }

  lemma {:induction false} AddLineExtends<T>(done: seq<T>, line: seq<T>)
    ensures done <= AddLine(done, line)
    decreases |line|
  {
    if line != [] {
      AddLineExtends(if line[0] in done then done else done + [line[0]], line[1..]);
    }
  }

  /** What every search order built so far satisfies. */
  ghost predicate OrderOk<T>(order: map<T, seq<T>>, any: T, k: T) {
    && k in order
    && (k == any ==> order[k] == [])
    && (k != any ==>
        && |order[k]| >= 2 && order[k][0] == any && order[k][|order[k]| - 1] == k
        && NoDuplicates(order[k]) && AncestorsFirst(order, order[k])
        && forall c :: c in order[k] ==> c in order)
  }

  ghost predicate Hierarchy<T>(order: map<T, seq<T>>, any: T) {
    any in order && forall k :: k in order ==> OrderOk(order, any, k)
  }

  lemma {:induction false} HierarchyAt<T>(order: map<T, seq<T>>, any: T, k: T)
    requires Hierarchy(order, any) && k in order
    ensures OrderOk(order, any, k)
  {}

  ghost function LinesOf<T>(order: map<T, seq<T>>, bases: seq<T>): (lines: seq<seq<T>>)
    requires forall b :: b in bases ==> b in order
    ensures |lines| == |bases| && forall i :: 0 <= i < |bases| ==> lines[i] == order[bases[i]]
  {
    seq(|bases|, i requires 0 <= i < |bases| => order[bases[i]])
  }

  /** One lro_build keeps the hierarchy in order.  The new order holds exactly the classes of its bases'
      orders, the root and the class itself, and starts with the whole order of the first base. */
  lemma {:induction false} LinearizeKeepsHierarchy<T>(order: map<T, seq<T>>, any: T, bases: seq<T>, self: T)
    requires Hierarchy(order, any) && self !in order && forall b :: b in bases ==> b in order
    ensures var s := Linearize(any, LinesOf(order, bases), self);
      && Hierarchy(order[self := s], any)
      && (forall c :: c in s ==> c == any || c == self || exists b :: b in bases && c in order[b])
      && any in s && self in s && (forall b, c :: b in bases && c in order[b] ==> c in s)
      && (bases != [] ==> order[bases[0]] <= s)
  {
    var lines := LinesOf(order, bases);
    var front := AddLines([any], lines);
    var s := Linearize(any, lines, self);
    forall l | 0 <= l < |lines|
      ensures AncestorsFirst(order, lines[l])
    {
      assert OrderOk(order, any, bases[l]);
    }
    assert OrderOk(order, any, any);
    AddLinesKeeps(order, [any], lines);
    forall c | c in front && c != any
      ensures exists b :: b in bases && c in order[b]
      ensures c in order
    {
      var l :| 0 <= l < |lines| && c in lines[l];
      assert bases[l] in bases && c in order[bases[l]];
      assert OrderOk(order, any, bases[l]);
    }
    forall b, c | b in bases && c in order[b]
      ensures c in front
    {
      var l :| 0 <= l < |bases| && bases[l] == b;
      assert c in lines[l];
    }
    NewOrderOk(order, any, front, self);
    assert s[0] == front[0] == any && s[|front|] == self;
    if bases != [] {
      FirstBaseIsPrefix(order, any, bases);
      assert front <= s;
    }
  }

  lemma {:induction false} NewOrderOk<T>(order: map<T, seq<T>>, any: T, front: seq<T>, self: T)
    requires Hierarchy(order, any) && self !in order
    requires [any] <= front && NoDuplicates(front) && AncestorsFirst(order, front)
    requires forall c :: c in front ==> c in order
    ensures Hierarchy(order[self := front + [self]], any)
  {
    var s := front + [self];
    var order' := order[self := s];
    forall k | k in order'
      ensures OrderOk(order', any, k)
    {
      if k == self {
        forall i, c | 0 <= i < |s| && s[i] in order' && c in order'[s[i]]
          ensures c in s[..i + 1]
        {
          if i < |front| {
            assert s[i] == front[i] && s[..i + 1] == front[..i + 1];
            assert front[i] in front;
          } else {
            assert s[..i + 1] == s;
          }
        }
      } else {
        assert OrderOk(order, any, k);
      }
    }
  }

  lemma {:induction false} FirstBaseIsPrefix<T>(order: map<T, seq<T>>, any: T, bases: seq<T>)
    requires Hierarchy(order, any) && bases != [] && forall b :: b in bases ==> b in order
    ensures order[bases[0]] <= AddLines([any], LinesOf(order, bases))
  {
    var lines := LinesOf(order, bases);
    var line := lines[0];
    assert OrderOk(order, any, bases[0]);
    if line != [] {
      assert line == [any] + line[1..];
      AddNewLine([any], line[1..]);
      assert AddLine([any], line) == line;
    }
    AddLinesExtends(AddLine([any], line), lines[1..]);
  }

  // ---------------------------------------------------------------- which class comes first

  lemma {:induction false} AddLineOnly<T>(done: seq<T>, line: seq<T>, y: T)
    requires y !in done && y !in line
    ensures y !in AddLine(done, line)
    decreases |line|
  {
    if line != [] {
      AddLineOnly(if line[0] in done then done else done + [line[0]], line[1..], y);
    }
  }

  lemma {:induction false} MetInLine<T>(done: seq<T>, line: seq<T>, i: nat, y: T) returns (front: seq<T>)
    requires i < |line| && y !in done && y !in line[..i + 1]
    ensures front <= AddLine(done, line) && line[i] in front && y !in front
    decreases |line|
  {
    var next := if line[0] in done then done else done + [line[0]];
    assert line[0] in line[..i + 1];
    if i == 0 {
      AddLineExtends(next, line[1..]);
      front := next;
    } else {
      assert line[1..][..i] == line[1..i + 1];
      front := MetInLine(next, line[1..], i - 1, y);
    }
  }

  lemma {:induction false} MetInLines<T>(done: seq<T>, lines: seq<seq<T>>, l: nat, i: nat, y: T)
    returns (front: seq<T>)
    requires l < |lines| && i < |lines[l]| && y !in done
    requires (forall m :: 0 <= m < l ==> y !in lines[m]) && y !in lines[l][..i + 1]
    ensures front <= AddLines(done, lines) && lines[l][i] in front && y !in front
    decreases |lines|
  {
    if l == 0 {
      front := MetInLine(done, lines[0], i, y);
      AddLinesExtends(AddLine(done, lines[0]), lines[1..]);
    } else {
      AddLineOnly(done, lines[0], y);
      assert forall m :: 0 <= m < l - 1 ==> lines[1..][m] == lines[m + 1];
      front := MetInLines(AddLine(done, lines[0]), lines[1..], l - 1, i, y);
    }
  }

  /** Classes stand in the order in which they are first met, going through the root and then through
      the orders of the bases one after the other: whatever is met before y stands before y. */
  lemma {:induction false} FirstMetFirst<T>(any: T, lines: seq<seq<T>>, self: T, l: nat, i: nat, b: nat)
    requires l < |lines| && i < |lines[l]| && b < |Linearize(any, lines, self)|
    requires var y := Linearize(any, lines, self)[b];
      y != any && (forall m :: 0 <= m < l ==> y !in lines[m]) && y !in lines[l][..i + 1]
    ensures lines[l][i] in Linearize(any, lines, self)[..b]
  {
    var s := Linearize(any, lines, self);
    var front := MetInLines([any], lines, l, i, s[b]);
    assert front <= s;
    assert s[..b][..|front|] == front;
  }

  lemma {:induction false} SkipKnown<T>(done: seq<T>, known: seq<T>, line: seq<T>)
    requires forall c :: c in known ==> c in done
    ensures AddLine(done, known + line) == AddLine(done, line)
    decreases |known|
  {
    if known == [] {
      assert known + line == line;
    } else {
      SkipKnown(done, known[1..], line);
      assert (known + line)[1..] == known[1..] + line;
    }
  }

  lemma {:induction false} NextLine<T>(done: seq<T>, line: seq<T>, rest: seq<seq<T>>)
    ensures AddLines(done, [line] + rest) == AddLines(AddLine(done, line), rest)
  {
    assert ([line] + rest)[1..] == rest;
  }

  /** The classes of test/test_trait.c, where E extends A with D with C with B. */
  lemma {:induction false} TraitOrder<T>(any: T, a: T, b: T, c: T, d: T, e: T)
    requires NoDuplicates([any, a, b, c, d, e])
    ensures Linearize(any, [[any, a], [any, a, d], [any, a, b, c], [any, a, b]], e) == [any, a, d, b, c, e]
  {
    var all := [any, a, b, c, d, e];
    assert all[0] != all[1] && all[1] != all[4] && all[0] != all[4];
    assert forall i, j :: 0 <= i < j < 5 ==> all[i] != all[j];
    assert all[2] != all[0] && all[2] != all[1] && all[2] != all[4] && all[2] != all[3];
    assert all[3] != all[0] && all[3] != all[1] && all[3] != all[4];
    assert AddLine([any], [any, a]) == [any, a] by {
      SkipKnown([any], [any], [a]);
      AddNewLine([any], [a]);
      assert [any] + [a] == [any, a];
    }
    assert AddLine([any, a], [any, a, d]) == [any, a, d] by {
      SkipKnown([any, a], [any, a], [d]);
      AddNewLine([any, a], [d]);
      assert [any, a] + [d] == [any, a, d];
    }
    assert AddLine([any, a, d], [any, a, b, c]) == [any, a, d, b, c] by {
      SkipKnown([any, a, d], [any, a], [b, c]);
      AddNewLine([any, a, d], [b, c]);
      assert [any, a] + [b, c] == [any, a, b, c];
      assert [any, a, d] + [b, c] == [any, a, d, b, c];
    }
    assert AddLine([any, a, d, b, c], [any, a, b]) == [any, a, d, b, c] by {
      SkipKnown([any, a, d, b, c], [any, a, b], []);
      assert [any, a, b] + [] == [any, a, b];
    }
    NextLine([any], [any, a], [[any, a, d], [any, a, b, c], [any, a, b]]);
    NextLine([any, a], [any, a, d], [[any, a, b, c], [any, a, b]]);
    NextLine([any, a, d], [any, a, b, c], [[any, a, b]]);
    NextLine([any, a, d, b, c], [any, a, b], []);
  }
}
