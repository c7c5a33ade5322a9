/**
 * The worked example of the predicate utilities: a list of users filtered
 * with composites built by `and`, `or` and `roleCheck`.
 */
module PredicationExample {
  import opened JsArray
  import opened Predication
  import opened RoleValidation

  datatype UserRole = Administrator | Editor | Subscriber | Writer

  datatype User = User(username: string, age: int, role: UserRole)

  const John := User("John", 25, Administrator)
  const Jane := User("Jane", 7, Subscriber)
  const Liza := User("Liza", 18, Writer)
  const Jim := User("Jim", 16, Editor)
  const Bill := User("Bill", 32, Editor)

  function Users(): seq<User>
  {
    [John, Jane, Liza, Jim, Bill]
  }

  /** `isRole(role)`: the user has exactly this role. */
  function IsRole(role: UserRole): (p: PredicateFn<User>)
  {
    (u: User, i: Index) => u.role == role
  }

  /** `isGreaterThan(age)`: the user is strictly older. */
  function IsGreaterThan(age: int): (p: PredicateFn<User>)
  {
    (u: User, i: Index) => u.age > age
  }

  function IsWriter(): (p: PredicateFn<User>)
  {
    IsRole(Writer)
  }

  /** `and(isGreaterThan(17), or(isWriter, isRole(Editor)))`. */
  function AdultWriterOrEditor(): (p: PredicateFn<User>)
  {
    And([IsGreaterThan(17), Or([IsWriter(), IsRole(Editor)])])
  }

  /** `and(isGreaterThan(5), isWriter)`. */
  function OlderThan5Writer(): (p: PredicateFn<User>)
  {
    And([IsGreaterThan(5), IsWriter()])
  }

  /** The first composite holds of a user older than 17 who is a writer or
      an editor, whatever the index. */
  lemma AdultWriterOrEditorMeans(u: User, i: Index)
    ensures AdultWriterOrEditor()(u, i) == (u.age > 17 && (u.role == Writer || u.role == Editor))
  {
    var inner := [IsWriter(), IsRole(Editor)];
    Singleton(IsGreaterThan(17), u, i);
    AndAppendOne([IsGreaterThan(17)], Or(inner), u, i);
    OrAppendOne([IsWriter()], IsRole(Editor), u, Absent);
    Singleton(IsWriter(), u, Absent);
    assert [IsGreaterThan(17)] + [Or(inner)] == [IsGreaterThan(17), Or(inner)];
    assert [IsWriter()] + [IsRole(Editor)] == inner;
  }

  /** Filtering the users keeps exactly Liza and Bill, in their order. */
  lemma AdultWritersAndEditors()
    ensures Filter(Users(), AdultWriterOrEditor()) == [Liza, Bill]
  {
    var xs, p := Users(), AdultWriterOrEditor();
    AdultWriterOrEditorMeans(Bill, At(4));
    assert FilterFrom(xs, p, 4) == [Bill];
    AdultWriterOrEditorMeans(Jim, At(3));
    assert FilterFrom(xs, p, 3) == [Bill];
    AdultWriterOrEditorMeans(Liza, At(2));
    assert FilterFrom(xs, p, 2) == [Liza, Bill];
    AdultWriterOrEditorMeans(Jane, At(1));
    assert FilterFrom(xs, p, 1) == [Liza, Bill];
    AdultWriterOrEditorMeans(John, At(0));
  }

  /** The second composite holds of a writer older than 5. */
  lemma OlderThan5WriterMeans(u: User, i: Index)
    ensures OlderThan5Writer()(u, i) == (u.age > 5 && u.role == Writer)
  {
    AndAppendOne([IsGreaterThan(5)], IsWriter(), u, i);
    Singleton(IsGreaterThan(5), u, i);
    assert [IsGreaterThan(5)] + [IsWriter()] == [IsGreaterThan(5), IsWriter()];
  }

  /** Filtering the users with the second composite keeps exactly Liza. */
  lemma OlderThan5Writers()
    ensures Filter(Users(), OlderThan5Writer()) == [Liza]
  {
    var xs, p := Users(), OlderThan5Writer();
    OlderThan5WriterMeans(Bill, At(4));
    assert FilterFrom(xs, p, 4) == [];
    OlderThan5WriterMeans(Jim, At(3));
    assert FilterFrom(xs, p, 3) == [];
    OlderThan5WriterMeans(Liza, At(2));
    assert FilterFrom(xs, p, 2) == [Liza];
    OlderThan5WriterMeans(Jane, At(1));
    assert FilterFrom(xs, p, 1) == [Liza];
    OlderThan5WriterMeans(John, At(0));
  }

  /** The second composite's name promises subscribers or writers, but it
      tests only for writers: Jane, a subscriber older than five, is left out. */
  lemma SubscriberOmitted()
    ensures Jane.role == Subscriber && Jane.age > 5
    ensures Jane !in Filter(Users(), OlderThan5Writer())
  {
    OlderThan5Writers();
  }

  /** `and(isGreaterThan(5), or(isRole(Subscriber), isWriter))`: the
      composite the name `greaterThan5AndSubscriberOrWriter` describes. */
  function OlderThan5SubscriberOrWriter(): (p: PredicateFn<User>)
  {
    And([IsGreaterThan(5), Or([IsRole(Subscriber), IsWriter()])])
  }

  /** The corrected composite holds of a user older than 5 who is a
      subscriber or a writer, whatever the index. */
  lemma OlderThan5SubscriberOrWriterMeans(u: User, i: Index)
    ensures OlderThan5SubscriberOrWriter()(u, i) == (u.age > 5 && (u.role == Subscriber || u.role == Writer))
  {
    var inner := [IsRole(Subscriber), IsWriter()];
    Singleton(IsGreaterThan(5), u, i);
    AndAppendOne([IsGreaterThan(5)], Or(inner), u, i);
    OrAppendOne([IsRole(Subscriber)], IsWriter(), u, Absent);
    Singleton(IsRole(Subscriber), u, Absent);
    assert [IsGreaterThan(5)] + [Or(inner)] == [IsGreaterThan(5), Or(inner)];
    assert [IsRole(Subscriber)] + [IsWriter()] == inner;
  }

  /** Filtering with it keeps exactly Jane and Liza, in their order. */
  lemma OlderThan5SubscribersOrWriters()
    ensures Filter(Users(), OlderThan5SubscriberOrWriter()) == [Jane, Liza]
  {
    var xs, p := Users(), OlderThan5SubscriberOrWriter();
    OlderThan5SubscriberOrWriterMeans(Bill, At(4));
    assert FilterFrom(xs, p, 4) == [];
    OlderThan5SubscriberOrWriterMeans(Jim, At(3));
    assert FilterFrom(xs, p, 3) == [];
    OlderThan5SubscriberOrWriterMeans(Liza, At(2));
    assert FilterFrom(xs, p, 2) == [Liza];
    OlderThan5SubscriberOrWriterMeans(Jane, At(1));
    assert FilterFrom(xs, p, 1) == [Jane, Liza];
    OlderThan5SubscriberOrWriterMeans(John, At(0));
  }

  /** A predicate that reads its index: true when it is given one. */
  function HasIndex(): (p: PredicateFn<User>)
  {
    (u: User, i: Index) => i.At?
  }

  /** `filter` hands every element its position: `users.filter(hasIndex)`
      keeps every user. */
  lemma FilterPassesIndex()
    ensures Filter(Users(), HasIndex()) == Users()
  {
    var xs, p := Users(), HasIndex();
    assert FilterFrom(xs, p, 4) == [Bill];
    assert FilterFrom(xs, p, 3) == [Jim, Bill];
    assert FilterFrom(xs, p, 2) == [Liza, Jim, Bill];
    assert FilterFrom(xs, p, 1) == [Jane, Liza, Jim, Bill];
  }

  /** A composite calls the predicates it wraps without an index:
      `users.filter(or(hasIndex))` keeps no user. */
  lemma CompositeDropsIndex()
    ensures Filter(Users(), Or([HasIndex()])) == []
  {
    var xs, p := Users(), Or([HasIndex()]);
    forall u: User, i: Index
      ensures !p(u, i)
    {
      Singleton(HasIndex(), u, i);
    }
    assert FilterFrom(xs, p, 4) == [];
    assert FilterFrom(xs, p, 3) == [];
    assert FilterFrom(xs, p, 2) == [];
    assert FilterFrom(xs, p, 1) == [];
  }

  /** `roleCheck((user) => user.role, roles)`. */
  function HasRoleIn(roles: seq<UserRole>): (check: User -> bool)
  {
    RoleCheck((u: User) => u.role, roles)
  }

  /** A role check used with `filter` keeps exactly the users whose role is
      listed, in their order. */
  lemma EditorsAndWriters()
    ensures Filter(Users(), FromUnary(HasRoleIn([Editor, Writer]))) == [Liza, Jim, Bill]
  {
    var xs, p := Users(), FromUnary(HasRoleIn([Editor, Writer]));
    assert p(Bill, At(4)) && p(Jim, At(3)) && p(Liza, At(2));
    assert !p(Jane, At(1)) && !p(John, At(0));
    assert FilterFrom(xs, p, 4) == [Bill];
    assert FilterFrom(xs, p, 3) == [Jim, Bill];
    assert FilterFrom(xs, p, 2) == [Liza, Jim, Bill];
    assert FilterFrom(xs, p, 1) == [Liza, Jim, Bill];
  }

  /** `and(roleCheck(role, [Writer]), isGreaterThan(17))` rejects a
      16-year-old writer and accepts a 25-year-old one. */
  lemma AdultWriterCheck(i: Index)
    ensures !And([FromUnary(HasRoleIn([Writer])), IsGreaterThan(17)])(User("Liza", 16, Writer), i)
    ensures And([FromUnary(HasRoleIn([Writer])), IsGreaterThan(17)])(User("Liza", 25, Writer), i)
  {
    var ps := [FromUnary(HasRoleIn([Writer])), IsGreaterThan(17)];
    assert ps[0] == FromUnary(HasRoleIn([Writer])) && ps[1] == IsGreaterThan(17);
  }

  /** The predicate `user => selector(user) === role`. */
  function KeyIs<D, K(==)>(selector: D -> K, role: K): (p: PredicateFn<D>)
  {
    (v: D, i: Index) => selector(v) == role
  }

  /** One equality predicate per allowed role. */
  function KeyIsAny<D, K(==)>(selector: D -> K, roles: seq<K>): (ps: seq<PredicateFn<D>>)
    ensures |ps| == |roles|
  {
    seq(|roles|, k requires 0 <= k < |roles| => KeyIs(selector, roles[k]))
  }

  /** `roleCheck(selector, roles)` is `or` over one equality test per role. */
  lemma RoleCheckIsOrOfEqualities<D(!new), K>(selector: D -> K, roles: seq<K>, v: D, i: Index)
    ensures RoleCheck(selector, roles)(v) == Or(KeyIsAny(selector, roles))(v, i)
  {
    var ps := KeyIsAny(selector, roles);
    if selector(v) in roles {
      var k :| 0 <= k < |roles| && roles[k] == selector(v);
      assert ps[k](v, Absent);
    }
  }
}
