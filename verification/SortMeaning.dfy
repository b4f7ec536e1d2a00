/** What an accepted sort term means: the field its path names, the direction it asks for,
    and the join path of Go names that leads there. */
module SortMeaning {
  import opened Common
  import opened Strings
  import opened Schema
  import opened SortParameter
  import opened SortPaths
  import opened WellScoped

  // The names of Go fields are not empty and hold no dots.
  ghost predicate GoNamed(m: Model)
    decreases m
  {
    && (forall n :: n in m.relationships ==> m.relationships[n].goName != "" && '.' !in m.relationships[n].goName)
    && forall n :: n in m.relationships ==> GoNamed(m.relationships[n].target)
  }

  // The Go names of the relationships a path of public names follows, in order.
  ghost predicate GoPath(m: Model, names: seq<string>, goNames: seq<string>)
    decreases |names|
  {
    if names == [] then goNames == []
    else
      && names[0] in m.relationships && goNames != [] && goNames[0] == m.relationships[names[0]].goName
      && GoPath(m.relationships[names[0]].target, names[1..], goNames[1..])
  }

  /** The term's path leads along to-one relationships to a sortable field, which is ordered
      by in the direction asked for, under the table its Go names join to. */
  ghost predicate SortMeans(m: Model, term: SortTerm, depth: int, o: SortOrder,
                            names: seq<string>, goNames: seq<string>, owner: Model)
  {
    && PathTo(m, "", term.field, depth, names, owner) && GoPath(m, names[..|names| - 1], goNames)
    && names[|names| - 1] in owner.fields && o.field == owner.fields[names[|names| - 1]] && o.field.sortable
    && o.desc == term.desc
    && o.joinPath == JoinWith(".", goNames) && o.table == JoinWith("__", goNames)
  }

  ghost predicate TermMeans(m: Model, term: SortTerm, depth: int, o: SortOrder) {
    exists names, goNames, owner :: SortMeans(m, term, depth, o, names, goNames, owner)
  }

  lemma {:induction false} FollowedExactly(m: Model, path: seq<string>, owner: Model, goNames: seq<string>)
    ensures FollowOnes(m, path) == Ok((owner, goNames)) <==> ToOnes(m, path, owner) && GoPath(m, path, goNames)
    decreases |path|
  {
    if path != [] && path[0] in m.relationships && goNames != [] {
      FollowedExactly(m.relationships[path[0]].target, path[1..], owner, goNames[1..]);
      assert goNames == [goNames[0]] + goNames[1..];
    }
  }

  lemma PathNames(path: string)
    ensures forall m, depth, names, owner :: PathTo(m, "", path, depth, names, owner) ==> ValidPath(path) == Some(names)
    ensures ValidPath(path).Some? ==> path == Join('/', ValidPath(path).value)
    ensures ValidPath(path).Some? ==> forall i :: 0 <= i < |ValidPath(path).value| ==>
      IsPublicName(ValidPath(path).value[i])
    ensures ValidPath(path).Some? ==> ValidPath(path).value != []
  {
    hide ValidPath, IsPublicName, ToOnes;
    PathTextNames(path, Validator.Scope(Model("", map[], map[]), "", "", false));
    ValidPathNonEmpty(path);
  }

  /** validateSortPath accepts a term with this answer if and only if it means it. */
  lemma SortResolvesExactly(m: Model, term: SortTerm, depth: int, o: SortOrder)
    ensures ResolveSort(m, term, depth) == Ok(o) <==> TermMeans(m, term, depth, o)
  {
    hide ValidPath, IsPublicName, FollowOnes, ToOnes, GoPath, JoinWith;
    PathNames(term.field);
    if ValidPath(term.field).Some? {
      var path := ValidPath(term.field).value;
      var front := path[..|path| - 1];
      forall owner, goNames
        ensures FollowOnes(m, front) == Ok((owner, goNames)) <==> ToOnes(m, front, owner) && GoPath(m, front, goNames)
      {
        FollowedExactly(m, front, owner, goNames);
      }
      if ResolveSort(m, term, depth) == Ok(o) {
        var (owner, goNames) := FollowOnes(m, front).value;
        assert SortMeans(m, term, depth, o, path, goNames, owner);
      }
    }
  }

  lemma {:induction false} GoPathNames(m: Model, names: seq<string>, goNames: seq<string>)
    requires GoNamed(m) && GoPath(m, names, goNames)
    ensures |goNames| == |names| && forall i :: 0 <= i < |goNames| ==> goNames[i] != "" && '.' !in goNames[i]
    decreases |names|
  {
    if names != [] {
      GoPathNames(m.relationships[names[0]].target, names[1..], goNames[1..]);
      assert goNames == [goNames[0]] + goNames[1..];
    }
  }

  /** The join path splits at its dots into those Go names; it is empty for the model's own fields only. */
  lemma JoinPathSplits(m: Model, term: SortTerm, depth: int, o: SortOrder,
                       names: seq<string>, goNames: seq<string>, owner: Model)
    requires GoNamed(m) && SortMeans(m, term, depth, o, names, goNames, owner)
    ensures |goNames| == |names| - 1 && (o.joinPath == "" <==> |names| == 1) && (o.table == "" <==> |names| == 1)
    ensures |names| > 1 ==> Split('.', o.joinPath) == goNames
    ensures o.table == JoinedAlias(o.joinPath)
  {
    hide GoNamed, GoPath, ToOnes, IsPublicName;
    GoPathNames(m, names[..|names| - 1], goNames);
    if goNames != [] {
      SplitJoin('.', goNames);
    }
    AliasOfPath(goNames);
  }
}
