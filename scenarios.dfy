/** Request sequences that follow tests/test_users.py and extend them, proved
    from the store's contracts alone: each starts from a fresh store, as the
    test fixture resets `users_db` and `next_user_id` before every test. */
module UserScenarios {
  import opened Models
  import opened UserDirectory

  method CreateAssignsSequentialIds()
  {
    var store := new UserStore();
    var johnBody := UserBody(Some("John Doe"), Some("john@example.com"), Some(30));
    assert Validate(johnBody) == Ok(UserFields("John Doe", "john@example.com", Some(30)));
    var john := store.Create(johnBody);
    assert john == Record(User(1, "John Doe", "john@example.com", Some(30)));

    var janeBody := UserBody(Some("Jane Doe"), Some("jane@example.com"), None);
    assert Validate(janeBody) == Ok(UserFields("Jane Doe", "jane@example.com", None));
    var jane := store.Create(janeBody);
    assert jane == Record(User(2, "Jane Doe", "jane@example.com", None));
  }

  method ListEmptyStore()
  {
    var store := new UserStore();
    var empty := store.List();
    assert empty == [];
  }

  method ListInCreationOrder()
  {
    var store := new UserStore();
    var firstBody := UserBody(Some("User 1"), Some("user1@example.com"), Some(25));
    var first := store.Create(firstBody);
    assert first.Record? && first.user.name == "User 1" by {
      assert Validate(firstBody).Ok?;
    }
    var listed := ValuesInOrder(store.users, store.order);
    assert listed == [first.user];

    var secondBody := UserBody(Some("User 2"), Some("user2@example.com"), Some(35));
    var second := store.Create(secondBody);
    assert second.Record? && second.user.name == "User 2" by {
      assert Validate(secondBody).Ok?;
    }
    assert ValuesInOrder(store.users, store.order) == [first.user, second.user];

    var all := store.List();
    assert all == [first.user, second.user];
  }

  method GetUpdateDelete()
  {
    var store := new UserStore();
    var created := store.Create(UserBody(Some("John Doe"), Some("john@example.com"), Some(30)));
    var id := created.user.id;

    var got := store.Get(id);
    assert got == created;

    var updated := store.Update(id, UserBody(Some("John Smith"), Some("johnsmith@example.com"), None));
    assert updated == Record(User(id, "John Smith", "johnsmith@example.com", None));
    got := store.Get(id);
    assert got == updated;

    var deleted := store.Delete(id);
    assert deleted == NoContent;
    got := store.Get(id);
    assert got == NotFound(id);

    var again := store.Create(UserBody(Some("Jane Doe"), Some("jane@example.com"), None));
    assert again.Record? && again.user.id == 2;
  }

  method UnknownIdsAreNotFound()
  {
    var store := new UserStore();
    var got := store.Get(999);
    assert got == NotFound(999);
    var updated := store.Update(999, UserBody(Some("Test"), Some("test@example.com"), None));
    assert updated == NotFound(999);
    var deleted := store.Delete(999);
    assert deleted == NotFound(999);
    assert store.users == map[] && store.nextId == 1;
  }

  method InvalidBodiesChangeNothing()
  {
    var store := new UserStore();
    var noEmail := store.Create(UserBody(Some("John Doe"), None, None));
    assert noEmail == Invalid([FieldError(Email, Missing)]);
    var emptyName := store.Create(UserBody(Some(""), Some("test@example.com"), None));
    assert emptyName == Invalid([FieldError(Name, StringTooShort)]);
    var negativeAge := store.Create(UserBody(Some("John"), Some("john@example.com"), Some(-5)));
    assert negativeAge == Invalid([FieldError(Age, LessThanMin)]);
    assert store.users == map[] && store.nextId == 1;
  }
}
