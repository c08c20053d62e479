/** Strings that share their characters and count who uses them. */
module Strings {

  /** MBA_string::String_value */
  class StringValue {
    const data: string
    var refCount: int

    constructor (data: string)
      ensures this.data == data && refCount == 1
    {
      this.data, refCount := data, 1;
    }
  }

  class MbaString {
    var value: StringValue

    constructor (value: StringValue)
      ensures this.value == value
    {
      this.value := value;
    }
  }

  /** All strings of a program: the handles that have not been destroyed and the values that have not been freed.
      A value's characters never change, so what a method may modify says which strings keep their text. */
  class Program {
    ghost var handles: set<MbaString>
    ghost var values: set<StringValue>

    ghost function Users(hs: set<MbaString>, v: StringValue): set<MbaString>
      reads hs`value
    {
      set h | h in hs && h.value == v
    }

    /** None of these handles refers to a freed value, and every count is the number of them; no value is without. */
    ghost predicate Counted(hs: set<MbaString>)
      reads this`values, hs`value, values`refCount
    {
      && (forall h :: h in hs ==> h.value in values)
      && (forall v :: v in values ==> v.refCount == |Users(hs, v)| > 0)
    }

    constructor ()
      ensures Counted(handles) && handles == {} && values == {}
    {
      handles, values := {}, {};
    }

    /** The handle gives up its value, which is freed if it was the last one. */
    method Leave(s: MbaString, ghost hs: set<MbaString>)
      requires Counted(hs) && s in hs
      modifies this`values, s.value`refCount
      ensures Counted(hs - {s})
      ensures values == old(values) - if Users(hs, s.value) == {s} then {s.value} else {}
    {
      var v := s.value;
      LastUser(s, hs);
      UsersWithout(s, hs);
      hide Users;
      v.refCount := v.refCount - 1;
      if v.refCount == 0 {
        values := values - {v};
      }
    }

    lemma UsersWithout(s: MbaString, hs: set<MbaString>)
      requires s in hs
      ensures |Users(hs - {s}, s.value)| == |Users(hs, s.value)| - 1
      ensures forall w :: w in values && w != s.value ==> Users(hs - {s}, w) == Users(hs, w)
      ensures |Users(hs, s.value)| == 1 ==> forall h :: h in hs - {s} ==> h.value != s.value
    {
      assert Users(hs - {s}, s.value) == Users(hs, s.value) - {s};
      assert |Users(hs - {s}, s.value)| == 0 ==> Users(hs - {s}, s.value) == {};
      assert forall h :: h in hs - {s} && h.value == s.value ==> h in Users(hs - {s}, s.value);
    }

    /** The count is one exactly for the only user of a value. */
    lemma LastUser(s: MbaString, hs: set<MbaString>)
      requires Counted(hs) && s in hs
      ensures s.value.refCount == |Users(hs, s.value)| && s.value in values
      ensures s.value.refCount == 1 <==> Users(hs, s.value) == {s}
    {
      assert s in Users(hs, s.value);
      if |Users(hs, s.value)| == 1 {
        assert |Users(hs, s.value) - {s}| == 0;
      }
    }

    /** The handle, which refers to the value already, is counted. */
    method Share(s: MbaString, ghost hs: set<MbaString>)
      requires Counted(hs) && s !in hs && s.value in values
      modifies s.value`refCount
      ensures Counted(hs + {s})
    {
      UsersWith(s, hs);
      hide Users;
      s.value.refCount := s.value.refCount + 1;
    }

    lemma UsersWith(s: MbaString, hs: set<MbaString>)
      requires s !in hs
      ensures |Users(hs + {s}, s.value)| == |Users(hs, s.value)| + 1
      ensures forall w :: w in values && w != s.value ==> Users(hs + {s}, w) == Users(hs, w)
    {
      assert Users(hs + {s}, s.value) == Users(hs, s.value) + {s};
    }

    /** The handle refers to a new value of its own. */
    ghost method Own(s: MbaString, hs: set<MbaString>)
      requires Counted(hs) && s !in hs && s.value !in values && s.value.refCount == 1
      modifies this`values
      ensures Counted(hs + {s}) && values == old(values) + {s.value}
    {
      UsersWith(s, hs);
      assert Users(hs, s.value) == {};
      hide Users;
      values := values + {s.value};
    }

    /** MBA_string(const char*) */
    method Construct(text: string) returns (s: MbaString)
      requires Counted(handles)
      modifies this
      ensures Counted(handles) && fresh(s) && handles == old(handles) + {s}
      ensures s.value.data == text && fresh(s.value) && values == old(values) + {s.value}
    {
      hide *;
      var v := new StringValue(text);
      s := new MbaString(v);
      Own(s, handles);
      handles := handles + {s};
    }

    /** MBA_string(const MBA_string&) shares the value. */
    method Copy(t: MbaString) returns (s: MbaString)
      requires Counted(handles) && t in handles
      modifies this`handles, t.value`refCount
      ensures Counted(handles) && fresh(s) && handles == old(handles) + {s} && values == old(values)
      ensures s.value == t.value
    {
      hide *;
      StillUsed(t);
      s := new MbaString(t.value);
      Share(s, handles);
      handles := handles + {s};
    }

    /** ~MBA_string frees the value with the last handle. */
    method Destroy(s: MbaString)
      requires Counted(handles) && s in handles
      modifies this, s.value`refCount
      ensures Counted(handles) && handles == old(handles) - {s}
      ensures values == old(values) - if old(Users(handles, s.value)) == {s} then {s.value} else {}
    {
      hide Counted, Users;
      Leave(s, handles);
      handles := handles - {s};
    }

    /** operator=(const MBA_string&), also from a string that already shares the value */
    method Assign(s: MbaString, t: MbaString)
      requires Counted(handles) && s in handles && t in handles
      modifies this`values, s`value, s.value`refCount, t.value`refCount
      ensures Counted(handles) && handles == old(handles) && s.value == t.value == old(t.value)
      ensures values ==
        old(values) - if old(s.value != t.value && Users(handles, s.value) == {s}) then {old(s.value)} else {}
    {
      hide Counted, Users;
      if s.value == t.value {
        return;
      }
      ghost var others := handles - {s};
      StillUsed(t);
      Leave(s, handles);
      s.value := t.value;
      Share(s, others);
      assert others + {s} == handles;
    }

    lemma StillUsed(t: MbaString)
      requires Counted(handles) && t in handles
      ensures t.value in values
    {
    }

    /** operator=(const char*), from characters that do not belong to the string itself */
    method AssignText(s: MbaString, text: string)
      requires Counted(handles) && s in handles
      modifies this`values, s`value, s.value`refCount
      ensures Counted(handles) && handles == old(handles) && s.value.data == text && fresh(s.value)
      ensures values == old(values) + {s.value} - if old(Users(handles, s.value)) == {s} then {old(s.value)} else {}
    {
      hide Counted, Users;
      ghost var others := handles - {s};
      Leave(s, handles);
      s.value := new StringValue(text);
      Own(s, others);
      assert others + {s} == handles;
    }

    /** operator+ */
    method Concatenate(s: MbaString, t: MbaString) returns (r: MbaString)
      requires Counted(handles) && s in handles && t in handles
      modifies this
      ensures Counted(handles) && fresh(r) && handles == old(handles) + {r}
      ensures r.value.data == s.value.data + t.value.data && fresh(r.value) && values == old(values) + {r.value}
    {
      r := Construct(s.value.data + t.value.data);
    }

    /** operator== compares the values first, then the lengths, and the characters only if need be. */
    method Equal(s: MbaString, t: MbaString) returns (equal: bool)
      requires Counted(handles) && s in handles && t in handles
      ensures equal <==> s.value.data == t.value.data
    {
      if s.value == t.value {
        return true;
      }
      if |s.value.data| != |t.value.data| {
        return false;
      }
      equal := s.value.data == t.value.data;
    }

    /** Once every string has been destroyed, every value has been freed. */
    lemma NothingLeaks()
      requires Counted(handles) && handles == {}
      ensures values == {}
    {
      assert forall v :: v in values ==> Users(handles, v) == {};
    }
  }
}
