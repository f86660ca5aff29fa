/**
 * The piece supply of Game.generatePieces (back/Game.js): pieces are dealt
 * bag by bag, each bag a copy of the seven templates from which the draws
 * splice one template at a time.
 *
 * Math.random is replaced by an oracle: draw number `k` of a call reads
 * `o[k]`, and the index it picks in a bag of size `b` is `o[k] % b`.
 */
module Bag {
  import opened Board
  import Pieces
  import Rotation
  import Placement

  /** The seven templates, with the I piece standing upright, all spawning at (5, 0). */
  const Templates: seq<Template> := [
    Template([[1], [1], [1], [1]], "cyan", Point(5, 0)),
    Template([[1, 1], [1, 1]], "yellow", Point(5, 0)),
    Template([[0, 1, 0], [1, 1, 1]], "purple", Point(5, 0)),
    Template([[1, 0, 0], [1, 1, 1]], "orange", Point(5, 0)),
    Template([[0, 0, 1], [1, 1, 1]], "blue", Point(5, 0)),
    Template([[0, 1, 1], [1, 1, 0]], "red", Point(5, 0)),
    Template([[1, 1, 0], [0, 1, 1]], "green", Point(5, 0))
  ]

  /** Every template is a well-formed shape with a block, spawning at (5, 0). */
  lemma TemplatesWellFormed()
    ensures |Templates| == 7
    ensures forall i :: 0 <= i < |Templates| ==>
      IsShape(Templates[i].shape) && HasBlock(Templates[i].shape) && Templates[i].position == Point(5, 0)
  {
    forall i | 0 <= i < |Templates| ensures HasBlock(Templates[i].shape) {
      var s := Templates[i].shape;
      assert s[1][1 % |s[1]|] == 1;
    }
  }

  /** Any template can be spawned and dropped: a well-formed shape with a block, at (5, 0). */
  lemma TemplateIsPlayable(t: Template)
    requires t in Templates
    ensures IsShape(t.shape) && HasBlock(t.shape) && t.position == Point(5, 0)
  {
    TemplatesWellFormed();
    var i :| 0 <= i < |Templates| && Templates[i] == t;
  }

  /** No template has a gap inside a column or a row. */
  lemma TemplatesGapFree()
    ensures forall i :: 0 <= i < |Templates| ==>
      IsShape(Templates[i].shape) && Placement.ColumnsContiguous(Templates[i].shape) &&
      Placement.RowsContiguous(Templates[i].shape)
  {
    TemplatesWellFormed();
  }

  /**
   * A quarter turn maps the columns of a shape onto its rows and the rows
   * onto its columns, so a shape without gaps keeps none, however it turns.
   */
  lemma RotateKeepsGapFree(m: Shape, clockwise: bool)
    requires IsShape(m) && Placement.ColumnsContiguous(m) && Placement.RowsContiguous(m)
    ensures var out := Rotation.RotateMatrix(m, clockwise);
      Placement.ColumnsContiguous(out) && Placement.RowsContiguous(out)
  {
    var out := Rotation.RotateMatrix(m, clockwise);
    var rows, cols := |m|, |m[0]|;
    forall r, c1, c, c2 | 0 <= r < |out| && 0 <= c1 < c < c2 < |out[r]| && out[r][c1] == 1 && out[r][c2] == 1
      ensures out[r][c] == 1
    {
      if clockwise {
        assert out[r][c1] == m[rows - 1 - c1][r] && out[r][c2] == m[rows - 1 - c2][r];
        assert out[r][c] == m[rows - 1 - c][r];
      } else {
        assert out[r][c1] == m[c1][cols - 1 - r] && out[r][c2] == m[c2][cols - 1 - r];
      }
    }
    forall r1, r, r2, c | 0 <= r1 < r < r2 < |out| && 0 <= c < |out[0]| && out[r1][c] == 1 && out[r2][c] == 1
      ensures out[r][c] == 1
    {
      if clockwise {
        assert out[r1][c] == m[rows - 1 - c][r1] && out[r2][c] == m[rows - 1 - c][r2];
      } else {
        assert out[r1][c] == m[c][cols - 1 - r1] && out[r2][c] == m[c][cols - 1 - r2];
        assert out[r][c] == m[c][cols - 1 - r];
      }
    }
  }

  /**
   * Gap-free shapes do not close the hole in the 'down' check when the piece
   * is not drawn: the purple T turned clockwise, at (4, 0) over a filled
   * cell at row 0, column 4, is accepted although it overlaps that cell.
   */
  lemma TurnedTOverlapsStack(g: Grid)
    requires Placement.IsRect(g) && |g| >= 3 && |g[0]| >= 6
    requires g[0][4].filled && !g[2][4].filled && !g[1][5].filled
    ensures var s := Rotation.RotateMatrix(Templates[2].shape, true);
      s == [[1, 0], [1, 1], [1, 0]] &&
      Placement.IsValidPlacement(g, s, 4, 0, Placement.Down) && !Placement.Fits(g, s, 4, 0)
  {
    var s := Rotation.RotateMatrix(Templates[2].shape, true);
    assert s[0] == [1, 0] && s[1] == [1, 1] && s[2] == [1, 0];
    assert Placement.Lowest(s, 0, 3) == 2 && Placement.Lowest(s, 1, 3) == 1;
    assert !Placement.Free(g, 4, 0);
  }

  /** The table is the FORMS table with its I piece turned a quarter clockwise. */
  lemma TemplatesAreForms()
    ensures Templates[0].shape == Rotation.RotateMatrix(Pieces.Forms[0].shape, true)
    ensures forall i :: 0 <= i < 7 ==> Templates[i].color == Pieces.Forms[i].color
    ensures forall i :: 1 <= i < 7 ==> Templates[i].shape == Pieces.Forms[i].shape
  {
    var r := Rotation.RotateMatrix(Pieces.Forms[0].shape, true);
    assert |r| == 4 && forall i :: 0 <= i < 4 ==> |r[i]| == 1 && r[i][0] == 1;
    assert r[0] == [1] && r[1] == [1] && r[2] == [1] && r[3] == [1];
  }

  /** `bag.splice(i, 1)`. */
  function Remove<X>(bag: seq<X>, i: nat): (r: seq<X>)
    requires i < |bag|
    ensures |r| == |bag| - 1
  {
    bag[..i] + bag[i + 1..]
  }

  /** Splicing one template out leaves the others: no template is lost or gained but it. */
  lemma RemoveTakesOne<X>(bag: seq<X>, i: nat)
    requires i < |bag|
    ensures multiset(Remove(bag, i)) + multiset{bag[i]} == multiset(bag)
  {
    assert bag == bag[..i] + [bag[i]] + bag[i + 1..];
  }

  /** What is left of `bag` after the draws `o[0 .. j-1]`. */
  function {:induction false} Rest<X>(bag: seq<X>, j: nat, o: seq<nat>): (left: seq<X>)
    requires j <= |bag| && j <= |o|
    ensures |left| == |bag| - j
  {
    if j == 0 then bag
    else
      var before := Rest(bag, j - 1, o);
      Remove(before, o[j - 1] % |before|)
  }

  /** The templates taken from `bag` by the draws `o[0 .. j-1]`, in order. */
  function {:induction false} Drawn<X>(bag: seq<X>, j: nat, o: seq<nat>): (taken: seq<X>)
    requires j <= |bag| && j <= |o|
    ensures |taken| == j
  {
    if j == 0 then []
    else
      var before := Rest(bag, j - 1, o);
      Drawn(bag, j - 1, o) + [before[o[j - 1] % |before|]]
  }

  /** One more draw takes the template at the drawn index out of what is left. */
  lemma DrawStep<X>(bag: seq<X>, j: nat, o: seq<nat>)
    requires j < |bag| && j < |o|
    ensures var before := Rest(bag, j, o);
      var i := o[j] % |before|;
      && Drawn(bag, j + 1, o) == Drawn(bag, j, o) + [before[i]]
      && Rest(bag, j + 1, o) == Remove(before, i)
  {
  }

  /** The drawn templates and the rest of the bag together are the bag. */
  lemma {:induction false} DrawnAndRest<X>(bag: seq<X>, j: nat, o: seq<nat>)
    requires j <= |bag| && j <= |o|
    ensures multiset(Drawn(bag, j, o)) + multiset(Rest(bag, j, o)) == multiset(bag)
  {
    if j > 0 {
      var k := j - 1;
      DrawnAndRest(bag, k, o);
      DrawStep(bag, k, o);
      var before := Rest(bag, k, o);
      var i := o[k] % |before|;
      RemoveTakesOne(before, i);
      var taken, x := Drawn(bag, k, o), before[i];
      assert multiset(taken + [x]) == multiset(taken) + multiset{x};
    }
  }

  /** A bag emptied by as many draws as it holds dealt each of its templates exactly once. */
  lemma FullBagIsPermutation<X>(bag: seq<X>, o: seq<nat>)
    requires |o| >= |bag|
    ensures multiset(Drawn(bag, |bag|, o)) == multiset(bag)
  {
    DrawnAndRest(bag, |bag|, o);
  }

  /**
   * The `n` pieces one call of generatePieces pushes: bags of seven, each
   * a fresh copy of `full` (the templates), the last one cut short when `n`
   * is not a multiple of seven. Each bag reads the next seven oracle values.
   */
  function {:induction false} Fill<X>(full: seq<X>, n: nat, o: seq<nat>): (pieces: seq<X>)
    requires |full| == 7 && n <= |o|
    ensures |pieces| == n
    decreases n
  {
    var size := |full|;
    if n <= size then Drawn(full, n, o)
    else Drawn(full, size, o) + Fill(full, n - size, o[size..])
  }

  /** `m` whole bags are the first bag and then `m - 1` whole bags. */
  lemma WholeBags<X>(full: seq<X>, m: nat, o: seq<nat>)
    requires |full| == 7 && 0 < m && 7 * m <= |o|
    ensures Fill(full, 7 * m, o) == Drawn(full, 7, o) + Fill(full, 7 * m - 7, o[7..])
  {
    if m == 1 {
      assert Fill(full, 0, o[7..]) == [];
    }
  }

  /** Pushing the first `j` pieces of bag `m` after the `m` whole bags before it. */
  lemma {:induction false} FillStep<X>(full: seq<X>, m: nat, j: nat, o: seq<nat>)
    requires |full| == 7 && 0 < j <= 7 && 7 * m + j <= |o|
    ensures Fill(full, 7 * m + j, o) == Fill(full, 7 * m, o) + Drawn(full, j, o[7 * m..])
    decreases m
  {
    if m == 0 {
      assert o[0..] == o;
    } else {
      var rest, m' := o[7..], m - 1;
      FillStep(full, m', j, rest);
      assert 7 * m' == 7 * m - 7;
      assert rest[7 * m - 7..] == o[7 * m..];
      WholeBags(full, m, o);
      AppendAssoc(Drawn(full, 7, o), Fill(full, 7 * m - 7, rest), Drawn(full, j, o[7 * m..]));
    }
  }

  /** The pieces dealt first stay in front when more are dealt. */
  lemma {:induction false} FillPrefix<X>(full: seq<X>, n: nat, m: nat, o: seq<nat>)
    requires |full| == 7 && 7 * m <= n <= |o|
    ensures Fill(full, n, o)[..7 * m] == Fill(full, 7 * m, o)
    decreases m
  {
    if m > 0 && n > 7 {
      var rest, m' := o[7..], m - 1;
      FillPrefix(full, n - 7, m', rest);
      assert 7 * m' == 7 * m - 7;
      WholeBags(full, m, o);
      assert Fill(full, n, o) == Drawn(full, 7, o) + Fill(full, n - 7, rest);
      assert Fill(full, n, o)[..7 * m] == Drawn(full, 7, o) + Fill(full, n - 7, rest)[..7 * m - 7];
    }
  }

  /** Every aligned block of seven dealt pieces is a permutation of the bag. */
  lemma AlignedBlockIsPermutation<X>(full: seq<X>, n: nat, m: nat, o: seq<nat>)
    requires |full| == 7 && 7 * m + 7 <= n <= |o|
    ensures multiset(Fill(full, n, o)[7 * m .. 7 * m + 7]) == multiset(full)
  {
    var start, end := 7 * m, 7 * m + 7;
    FillPrefix(full, n, m + 1, o);
    FillStep(full, m, 7, o);
    assert Fill(full, n, o)[start..end] == Fill(full, end, o)[start..];
    assert Fill(full, end, o)[start..] == Drawn(full, 7, o[start..]);
    FullBagIsPermutation(full, o[start..]);
  }

  /** Only pieces of the bag are drawn from it. */
  lemma DrawnFromBag<X>(bag: seq<X>, j: nat, o: seq<nat>)
    requires j <= |bag| && j <= |o|
    ensures forall t :: t in Drawn(bag, j, o) ==> t in bag
  {
    DrawnAndRest(bag, j, o);
    var taken := Drawn(bag, j, o);
    assert multiset(taken) <= multiset(bag);
    forall t | t in taken ensures t in bag {
      assert t in multiset(taken);
      assert t in multiset(bag);
    }
  }

  /** Only pieces of the bag are dealt. */
  lemma {:induction false} FillFromBag<X>(full: seq<X>, n: nat, o: seq<nat>)
    requires |full| == 7 && n <= |o|
    ensures forall t :: t in Fill(full, n, o) ==> t in full
    decreases n
  {
    if n <= 7 {
      DrawnFromBag(full, n, o);
    } else {
      var first, rest := Drawn(full, 7, o), o[7..];
      DrawnFromBag(full, 7, o);
      FillFromBag(full, n - 7, rest);
      assert Fill(full, n, o) == first + Fill(full, n - 7, rest);
    }
  }
}
