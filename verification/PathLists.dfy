/** When a list of paths is stored as hashing takes it to be. */
module PathLists {
  import opened Wrappers
  import opened ExprTypes
  import opened ExprValues
  import opened ValueEquality

  /** The texts are normalized for this format. */
  ghost predicate NormalFor(h: Host, es: seq<Value>, fmt: PathFormat) {
    forall i :: 0 <= i < |es| ==> h.normalizePath(Display(h, es[i]), fmt) == Display(h, es[i])
  }

  ghost predicate AllPathsNormal(h: Host, es: seq<Value>) {
    forall i :: 0 <= i < |es| ==> PathsNormal(h, es[i])
  }

  lemma FilledPathsNormal(h: Host, es: seq<Value>)
    requires AllPathsNormal(h, es)
    ensures AllPathsNormal(h, FillEmpties(h, es))
    ensures forall i :: 0 <= i < |es| && FillEmpties(h, es)[i].PathValue? ==> es[i] == FillEmpties(h, es)[i]
  {}

  lemma UniformPathsNormal(h: Host, es: seq<Value>)
    requires es != [] && AllPathsNormal(h, es) && !(HasPath(es) && HasString(es)) && Uniform(es).Some?
    ensures var w := Uniform(es).value;
            && (PathsNormal(h, w) <==> (w.ListPath? ==> NormalFor(h, es, w.pathFormat)))
            && (w.ListPath? ==> es[0].PathValue? && w.pathFormat == es[0].format
                                && forall i :: 0 <= i < |es| ==> es[i].PathValue?)
  {
    if es[0].PathValue? {
      forall i | 0 <= i < |es| ensures es[i].PathValue? {
        assert HasPath(es) && (es[i].StringValue? ==> HasString(es));
      }
      var w := Uniform(es).value;
      assert |w.paths| == |es| && forall i :: 0 <= i < |es| ==> w.paths[i] == Display(h, es[i]);
    }
  }

  lemma AssembledPathsNormal(h: Host, es: seq<Value>)
    requires es != [] && AllPathsNormal(h, es) && Assemble(h, es).Some?
    ensures var w := Assemble(h, es).value;
            && (PathsNormal(h, w) <==> (w.ListPath? ==> NormalFor(h, es, w.pathFormat)))
            && (w.ListPath? ==> es[0].PathValue? && w.pathFormat == es[0].format
                                && forall i :: 0 <= i < |es| ==> es[i].PathValue?)
  {
    if HasInt(es) && HasFloat(es) {
    } else if HasListOf(es, Int) && HasListOf(es, Float) {
    } else if HasListOf(es, Path) && HasListOf(es, String) {
    } else if HasPath(es) && HasString(es) {
    } else {
      UniformPathsNormal(h, es);
    }
  }

  /** A list built by `make_list` stores its paths normalized if and only if they are normalized for the first
      one's format, or it is no list of paths. */
  lemma BuiltPathsNormal(h: Host, es: seq<Value>, hint: ExprType)
    requires es != [] && AllPathsNormal(h, es) && MakeListValue(h, es, hint).Some?
    ensures var w := MakeListValue(h, es, hint).value;
            && (w.ListPath? ==> es[0].PathValue? && w.pathFormat == es[0].format)
            && (PathsNormal(h, w) <==> (w.ListPath? ==> NormalFor(h, es, es[0].format)))
  {
    var filled := FillEmpties(h, es);
    FilledPathsNormal(h, es);
    AssembledPathsNormal(h, filled);
    if MakeListValue(h, es, hint).value.ListPath? {
      assert filled == es;
    }
  }

  /** Paths of one format, each normalized for it, always are. */
  lemma OneFormatNormal(h: Host, es: seq<Value>, hint: ExprType, fmt: PathFormat)
    requires es != [] && MakeListValue(h, es, hint).Some?
    requires forall i :: 0 <= i < |es| ==>
               es[i].PathValue? && es[i].format == fmt && h.normalizePath(es[i].path, fmt) == es[i].path
    ensures PathsNormal(h, MakeListValue(h, es, hint).value)
  {
    BuiltPathsNormal(h, es, hint);
  }

  /** Of several formats they need not be: after a Windows path, a POSIX one whose separators Windows writes
      otherwise. */
  lemma FormatsMixed(h: Host, p: string, q: string, hint: ExprType)
    requires h.normalizePath(q, Posix) == q && h.normalizePath(q, Windows) != q
    ensures var w := MakeListValue(h, [PathValue(p, Windows), PathValue(q, Posix)], hint);
            w.Some? && w.value == ListPath([p, q], Windows) && !PathsNormal(h, w.value)
  {
    var es := [PathValue(p, Windows), PathValue(q, Posix)];
    assert es[0].PathValue? && es[1].PathValue? && SiblingVariant(es[1..]) == SiblingVariant(es[1..][1..]);
    assert SiblingVariant(es) == None && FillEmpties(h, es) == es;
    var w := ListPath([p, q], Windows);
    assert Uniform(es).value.paths == w.paths;
    assert w.paths[1] == q;
  }
}
