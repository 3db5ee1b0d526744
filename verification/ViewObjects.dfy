/**
 The view objects of src/classad/view.cpp: every view updates its own index and member list in
 place and passes each notification on to its children. A ghost value of the whole tree below
 a view ties the methods to the functions of Views.
 */
module ViewObjects {
  import opened Options
  import opened ViewMembers
  import V = Views

  ghost function InsertedAll<A>(cs: seq<V.ViewState<A>>, key: string, ad: A): seq<V.ViewState<A>>
  {
    seq(|cs|, i requires 0 <= i < |cs| => V.Inserted(cs[i], key, ad))
  }

  ghost function DeletedAll<A>(cs: seq<V.ViewState<A>>, key: string): seq<V.ViewState<A>>
  {
    seq(|cs|, i requires 0 <= i < |cs| => V.Deleted(cs[i], key))
  }

  ghost function ModifiedAll<A>(cs: seq<V.ViewState<A>>, key: string, ad: A): seq<V.ViewState<A>>
  {
    seq(|cs|, i requires 0 <= i < |cs| => V.Modified(cs[i], key, ad))
  }

  class View<A> {
    const name: string
    const constraint: A -> bool
    const rank: A -> Rank
    var memberIndex: Index
    var viewMembers: seq<ViewMember>
    var subordinateViews: seq<View<A>>

    ghost var repr: set<View<A>>
    ghost var state: V.ViewState<A>

    ghost predicate Valid()
      reads this, repr
      decreases repr
    {
      && this in repr
      && state.name == name && state.constraint == constraint && state.rank == rank
      && state.index == memberIndex && state.members == viewMembers
      && |state.children| == |subordinateViews|
      && (forall i :: 0 <= i < |subordinateViews| ==>
            && subordinateViews[i] in repr && subordinateViews[i].repr < repr && this !in subordinateViews[i].repr
            && subordinateViews[i].Valid() && subordinateViews[i].state == state.children[i])
      && (forall i, j :: 0 <= i < j < |subordinateViews| ==> subordinateViews[i].repr !! subordinateViews[j].repr)
    }

    constructor (name: string, constraint: A -> bool, rank: A -> Rank)
      ensures Valid() && fresh(repr) && repr == {this}
      ensures state == V.NewView(name, constraint, rank)
      ensures this.name == name && this.constraint == constraint && this.rank == rank
    {
      this.name, this.constraint, this.rank := name, constraint, rank;
      memberIndex, viewMembers, subordinateViews := map[], [], [];
      repr, state := {this}, V.NewView(name, constraint, rank);
    }

    /** The children are valid trees apart from each other and from this view, and hold `states`. */
    ghost predicate Below(states: seq<V.ViewState<A>>)
      reads this, repr
    {
      && this in repr
      && |states| == |subordinateViews|
      && (forall i :: 0 <= i < |subordinateViews| ==>
            && subordinateViews[i] in repr && subordinateViews[i].repr < repr && this !in subordinateViews[i].repr
            && subordinateViews[i].Valid() && subordinateViews[i].state == states[i])
      && (forall i, j :: 0 <= i < j < |subordinateViews| ==> subordinateViews[i].repr !! subordinateViews[j].repr)
    }

    method ClassAdInserted(key: string, ad: A)
      requires Valid()
      modifies repr
      ensures Valid() && repr == old(repr)
      ensures state == V.Inserted(old(state), key, ad)
      decreases repr, 2
    {
      if !constraint(ad) {
        return;
      }
      InsertIntoChildren(key, ad);
      memberIndex, viewMembers := memberIndex[key := rank(ad)], Insert(viewMembers, ViewMember(key, rank(ad)));
      ghost var states := InsertedAll(state.children, key, ad);
      state := V.Inserted(state, key, ad);
      assert state.children == states;
    }

    method InsertIntoChildren(key: string, ad: A)
      requires Below(state.children)
      modifies repr - {this}
      ensures unchanged(this) && Below(InsertedAll(state.children, key, ad))
      decreases repr, 1
    {
      ghost var states := state.children;
      var i := 0;
      while i < |subordinateViews|
        invariant 0 <= i <= |subordinateViews| && unchanged(this) && Below(states)
        invariant forall j :: 0 <= j < |states| ==>
          states[j] == if j < i then V.Inserted(state.children[j], key, ad) else state.children[j]
      {
        InsertIntoChild(i, key, ad, states);
        states := states[i := V.Inserted(states[i], key, ad)];
        i := i + 1;
      }
      assert states == InsertedAll(state.children, key, ad);
    }

    method InsertIntoChild(i: nat, key: string, ad: A, ghost states: seq<V.ViewState<A>>)
      requires i < |subordinateViews| && Below(states)
      modifies subordinateViews[i].repr
      ensures unchanged(this) && Below(states[i := V.Inserted(states[i], key, ad)])
      decreases repr, 0
    {
      subordinateViews[i].ClassAdInserted(key, ad);
    }

    method ClassAdDeleted(key: string)
      requires Valid()
      modifies repr
      ensures Valid() && repr == old(repr)
      ensures state == V.Deleted(old(state), key)
      decreases repr, 2
    {
      if key !in memberIndex {
        return;
      }
      memberIndex, viewMembers := memberIndex - {key}, EraseAt(viewMembers, ViewMember(key, memberIndex[key]));
      DeleteFromChildren(key);
      ghost var states := DeletedAll(state.children, key);
      state := V.Deleted(state, key);
      assert state.children == states;
    }

    method DeleteFromChildren(key: string)
      requires Below(state.children)
      modifies repr - {this}
      ensures unchanged(this) && Below(DeletedAll(state.children, key))
      decreases repr, 1
    {
      ghost var states := state.children;
      var i := 0;
      while i < |subordinateViews|
        invariant 0 <= i <= |subordinateViews| && unchanged(this) && Below(states)
        invariant forall j :: 0 <= j < |states| ==>
          states[j] == if j < i then V.Deleted(state.children[j], key) else state.children[j]
      {
        DeleteFromChild(i, key, states);
        states := states[i := V.Deleted(states[i], key)];
        i := i + 1;
      }
      assert states == DeletedAll(state.children, key);
    }

    method DeleteFromChild(i: nat, key: string, ghost states: seq<V.ViewState<A>>)
      requires i < |subordinateViews| && Below(states)
      modifies subordinateViews[i].repr
      ensures unchanged(this) && Below(states[i := V.Deleted(states[i], key)])
      decreases repr, 0
    {
      subordinateViews[i].ClassAdDeleted(key);
    }

    method ClassAdModified(key: string, ad: A)
      requires Valid()
      modifies repr
      ensures Valid() && repr == old(repr)
      ensures state == V.Modified(old(state), key, ad)
      decreases repr, 4
    {
      var wasMember, matches := key in memberIndex, constraint(ad);
      if wasMember && matches {
        ModifyMember(key, ad);
      } else if matches {
        ClassAdInserted(key, ad);
      } else if wasMember {
        ClassAdDeleted(key);
      }
    }

    /** The case of a member that stays one. */
    method ModifyMember(key: string, ad: A)
      requires Valid() && key in memberIndex && constraint(ad)
      modifies repr
      ensures Valid() && repr == old(repr)
      ensures state == V.Modified(old(state), key, ad)
      decreases repr, 3
    {
      MoveMember(key, rank(ad));
      ModifyInChildren(key, ad);
      ghost var states := ModifiedAll(state.children, key, ad);
      state := V.Modified(state, key, ad);
      assert state.children == states;
    }

    /** Remove the old view member and insert it again if its rank has changed. */
    method MoveMember(key: string, newRank: Rank)
      requires key in memberIndex && state.index == memberIndex && state.members == viewMembers
      modifies this`memberIndex, this`viewMembers
      ensures memberIndex == V.Reorder(state, key, newRank).index && viewMembers == V.Reorder(state, key, newRank).members
    {
      if newRank != memberIndex[key] {
        viewMembers := EraseEquivalent(viewMembers, ViewMember(key, memberIndex[key]));
        viewMembers := Insert(viewMembers, ViewMember(key, newRank));
        memberIndex := memberIndex[key := newRank];
      }
    }

    method ModifyInChildren(key: string, ad: A)
      requires Below(state.children)
      modifies repr - {this}
      ensures unchanged(this) && Below(ModifiedAll(state.children, key, ad))
      decreases repr, 1
    {
      ghost var states := state.children;
      var i := 0;
      while i < |subordinateViews|
        invariant 0 <= i <= |subordinateViews| && unchanged(this) && Below(states)
        invariant forall j :: 0 <= j < |states| ==>
          states[j] == if j < i then V.Modified(state.children[j], key, ad) else state.children[j]
      {
        ModifyInChild(i, key, ad, states);
        states := states[i := V.Modified(states[i], key, ad)];
        i := i + 1;
      }
      assert states == ModifiedAll(state.children, key, ad);
    }

    method ModifyInChild(i: nat, key: string, ad: A, ghost states: seq<V.ViewState<A>>)
      requires i < |subordinateViews| && Below(states)
      modifies subordinateViews[i].repr
      ensures unchanged(this) && Below(states[i := V.Modified(states[i], key, ad)])
      decreases repr, 0
    {
      subordinateViews[i].ClassAdModified(key, ad);
    }

    /** The new view goes in front of the others and is filled from the members; `fatal` is the
        error for a member that the collection does not have. */
    method InsertSubordinateView(name: string, constraint: A -> bool, rank: A -> Rank, coll: V.Table<A>)
      returns (fatal: bool)
      requires Valid()
      modifies this
      ensures fatal <==> V.InsertSubordinate(old(state), V.NewView(name, constraint, rank), coll).None?
      ensures !fatal ==>
        && Valid() && fresh(repr - old(repr))
        && V.InsertSubordinate(old(state), V.NewView(name, constraint, rank), coll) == Some(state)
    {
      var newView := new View(name, constraint, rank);
      fatal := newView.FillFrom(viewMembers, coll);
      if fatal {
        return;
      }
      AdoptFirst(newView);
    }

    method FillFrom(ms: seq<ViewMember>, coll: V.Table<A>) returns (fatal: bool)
      requires Valid()
      modifies repr
      ensures fatal <==> V.Fill(old(state), ms, coll).None?
      ensures !fatal ==> Valid() && repr == old(repr) && V.Fill(old(state), ms, coll) == Some(state)
    {
      var i := 0;
      while i < |ms|
        invariant 0 <= i <= |ms| && Valid() && repr == old(repr)
        invariant V.Fill(state, ms[i..], coll) == V.Fill(old(state), ms, coll)
      {
        if ms[i].key !in coll {
          return true;
        }
        assert ms[i..][1..] == ms[i + 1..];
        ClassAdInserted(ms[i].key, coll[ms[i].key]);
        i := i + 1;
      }
      return false;
    }

    method AdoptFirst(child: View<A>)
      requires Valid() && child.Valid() && child.repr !! repr
      modifies this
      ensures Valid() && repr == old(repr) + child.repr
      ensures state == old(state).(children := [child.state] + old(state).children)
    {
      subordinateViews := [child] + subordinateViews;
      repr := repr + child.repr;
      state := state.(children := [child.state] + state.children);
    }
  }
}
