/** The leaf names `modele_pism_inputs` gives the grid files
    (topo/modele_pism_inputs.py:329, 346, 353): the PISM grid is stored
    under its name, and the overlap of the ModelE and PISM grids under both
    names joined by a dash. */
module FileNames {
  import opened Strings
  import opened PosixPath
  import opened GridIdentity

  /** The ModelE atmosphere grid (line 329). */
  const GridALeaf := "modele_ll_g1qx1.nc"

  /** `'{}.nc'.format(name)` at line 346. */
  function GridILeaf(name: string): string {
    name + ".nc"
  }

  /** The overlap grid's leaf at line 353: the root of the ModelE leaf, a
      dash, the PISM leaf. */
  function ExgridLeaf(gridILeaf: string): string {
    SplitExtRoot(GridALeaf) + "-" + gridILeaf
  }

  /** The overlap of a grid named `name` is stored as
      `modele_ll_g1qx1-<name>.nc`. */
  lemma ExgridLeafOf(name: string)
    ensures ExgridLeaf(GridILeaf(name)) == "modele_ll_g1qx1-" + name + ".nc"
  {
    assert "modele_ll_g1qx1"[0] != '.';
    SplitExtRootOfExtended("modele_ll_g1qx1", "nc");
    assert GridALeaf == "modele_ll_g1qx1" + "." + "nc";
  }

  /** Every grid name holds no separator and is not made of dots only. */
  lemma GridNameIsLeaf(iname: string, idx: int, idy: int)
    requires '/' !in iname
    ensures '/' !in GridName(iname, idx, idy, IndexOrder)
    ensures exists j :: 0 <= j < |GridName(iname, idx, idy, IndexOrder)| && GridName(iname, idx, idy, IndexOrder)[j] != '.'
  {
    var res := ResToken(idx, idy);
    assert '/' !in res by {
      IntToStringLacks(idx, '/');
      IntToStringLacks(idy, '/');
    }
    var o0 := IntToString(IndexOrder.0);
    var o1 := IntToString(IndexOrder.1);
    IntToStringLacks(IndexOrder.0, '/');
    IntToStringLacks(IndexOrder.1, '/');
    if StartsWith(iname, GreenlandPrefix) {
      PieceIsLeaf("pism_g", res + "km_" + o0 + o1);
      assert GridName(iname, idx, idy, IndexOrder) == "pism_g" + (res + "km_" + o0 + o1);
    } else {
      var root := SplitExtRoot(iname);
      assert '/' !in root by {
        forall j | 0 <= j < |root| ensures root[j] != '/' {
          assert root[j] == iname[j];
        }
      }
      PieceIsLeaf(root + res, "km_" + o0);
      assert GridName(iname, idx, idy, IndexOrder) == (root + res) + ("km_" + o0);
    }
  }

  /** Two pieces without separators, the second starting with a letter,
      make a leaf that is not made of dots only. */
  lemma PieceIsLeaf(a: string, b: string)
    requires '/' !in a && '/' !in b && |b| > 0 && b[0] != '.'
    ensures '/' !in a + b
    ensures exists j :: 0 <= j < |a + b| && (a + b)[j] != '.'
  {
    assert (a + b)[|a|] == b[0];
  }

  /** The name of a grid can be read back from the leaf it is stored
      under: taking the extension off gives the name. */
  lemma GridILeafRoundTrip(iname: string, idx: int, idy: int)
    requires '/' !in iname
    ensures SplitExtRoot(GridILeaf(GridName(iname, idx, idy, IndexOrder))) == GridName(iname, idx, idy, IndexOrder)
  {
    GridNameIsLeaf(iname, idx, idy);
    LeafRoundTrip(GridName(iname, idx, idy, IndexOrder));
  }

  lemma LeafRoundTrip(name: string)
    requires '/' !in name && exists j :: 0 <= j < |name| && name[j] != '.'
    ensures SplitExtRoot(GridILeaf(name)) == name
  {
    SplitExtRootOfExtended(name, "nc");
    assert GridILeaf(name) == name + "." + "nc";
  }
}
