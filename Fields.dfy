/**
 * Label/value field lists on a detail page (`ul.FieldList li`, each item an
 * optional `label` and an optional `span`) and the dictionary the scraper
 * fills from them, keyed by the normalised label.
 */
module Fields {
  import opened PyStr

  /** One `li` of a field list: its `label` and `span` texts, when present. */
  datatype FieldItem = FieldItem(labelText: Option<string>, spanText: Option<string>)

  function NormalizeChar(c: char): char {
    var l := LowerChar(c);
    if l == ' ' then '_' else l
  }

  /** `label.lower().replace(' ', '_')`. */
  function NormalizeKey(caption: string): (key: string)
    ensures |key| == |caption|
    ensures forall i :: 0 <= i < |key| ==> key[i] != ' ' && !('A' <= key[i] <= 'Z')
    ensures forall i :: 0 <= i < |key| ==> key[i] == NormalizeChar(caption[i])
  {
    if caption == [] then [] else [NormalizeChar(caption[0])] + NormalizeKey(caption[1..])
  }

  /** Normalising a key again changes nothing. */
  lemma NormalizeKeyIdempotent(caption: string)
    ensures NormalizeKey(NormalizeKey(caption)) == NormalizeKey(caption)
  {
    var k := NormalizeKey(caption);
    assert forall i :: 0 <= i < |k| ==> NormalizeChar(k[i]) == k[i];
  }

  /** Two labels give the same key exactly when they agree letter by letter
      up to ASCII case, with a space and an underscore counting as equal. */
  lemma NormalizeKeyCollision(a: string, b: string)
    ensures NormalizeKey(a) == NormalizeKey(b) <==>
            |a| == |b| && forall i :: 0 <= i < |a| ==> NormalizeChar(a[i]) == NormalizeChar(b[i])
  {
    if |a| == |b| && forall i :: 0 <= i < |a| ==> NormalizeChar(a[i]) == NormalizeChar(b[i]) {
      SameCharsSameKey(a, b);
    }
    if NormalizeKey(a) == NormalizeKey(b) {
      SameKeySameChars(a, b);
    }
  }

  lemma SameCharsSameKey(a: string, b: string)
    requires |a| == |b| && forall i :: 0 <= i < |a| ==> NormalizeChar(a[i]) == NormalizeChar(b[i])
    ensures NormalizeKey(a) == NormalizeKey(b)
  {
    var ka, kb := NormalizeKey(a), NormalizeKey(b);
    forall i | 0 <= i < |ka| ensures ka[i] == kb[i] {
      assert ka[i] == NormalizeChar(a[i]) && kb[i] == NormalizeChar(b[i]);
    }
  }

  lemma SameKeySameChars(a: string, b: string)
    requires NormalizeKey(a) == NormalizeKey(b)
    ensures |a| == |b| && forall i :: 0 <= i < |a| ==> NormalizeChar(a[i]) == NormalizeChar(b[i])
  {
    var ka, kb := NormalizeKey(a), NormalizeKey(b);
    forall i | 0 <= i < |a| ensures NormalizeChar(a[i]) == NormalizeChar(b[i]) {
      assert ka[i] == kb[i];
    }
  }

  /** The item writes an entry under `key`: both its label and its span are
      present and the label normalises to `key`. */
  predicate Provides(item: FieldItem, key: string) {
    item.labelText.Some? && item.spanText.Some? && NormalizeKey(item.labelText.value) == key
  }

  /** One step of the loop: a dictionary entry only when both sides exist. */
  function AddField(d: map<string, string>, item: FieldItem): map<string, string> {
    if item.labelText.Some? && item.spanText.Some? then d[NormalizeKey(item.labelText.value) := item.spanText.value]
    else d
  }

  /** The dictionary after the loop has visited every item of `items`,
      starting from `d`. */
  function FieldsOf(d: map<string, string>, items: seq<FieldItem>): map<string, string> {
    if items == [] then d
    else AddField(FieldsOf(d, items[..|items| - 1]), items[|items| - 1])
  }

  /** The loop over a field list, writing into a dictionary that starts as
      `init`. */
  method CollectFields(items: seq<FieldItem>, init: map<string, string>) returns (d: map<string, string>)
    ensures d == FieldsOf(init, items)
  {
    d := init;
    for i := 0 to |items|
      invariant d == FieldsOf(init, items[..i])
    {
      var item := items[i];
      if item.labelText.Some? && item.spanText.Some? {
        var key := NormalizeKey(item.labelText.value);
        d := d[key := item.spanText.value];
      }
      assert items[..i + 1][..i] == items[..i];
    }
    assert items[..|items|] == items;
  }

  /** A key is present after the loop exactly when it was present before or
      some item provides it. */
  lemma {:induction false} FieldsOfKeys(d: map<string, string>, items: seq<FieldItem>, key: string)
    ensures key in FieldsOf(d, items) <==>
            key in d || exists i :: 0 <= i < |items| && Provides(items[i], key)
  {
    if items != [] {
      var init := items[..|items| - 1];
      FieldsOfKeys(d, init, key);
      if exists i :: 0 <= i < |init| && Provides(init[i], key) {
        var i :| 0 <= i < |init| && Provides(init[i], key);
        assert Provides(items[i], key);
      }
      if exists i :: 0 <= i < |items| && Provides(items[i], key) {
        var i :| 0 <= i < |items| && Provides(items[i], key);
        if i < |init| { assert Provides(init[i], key); }
      }
    }
  }

  /** The last item that provides a key decides its value: a repeated label
      keeps the value seen last. */
  lemma {:induction false} FieldsOfLastWins(d: map<string, string>, items: seq<FieldItem>, key: string, i: nat)
    requires i < |items| && Provides(items[i], key)
    requires forall j :: i < j < |items| ==> !Provides(items[j], key)
    ensures key in FieldsOf(d, items) && FieldsOf(d, items)[key] == items[i].spanText.value
  {
    var n := |items| - 1;
    if i < n {
      var init := items[..n];
      assert !Provides(items[n], key);
      FieldsOfLastWins(d, init, key, i);
    }
  }

  /** A key that no item provides keeps its old value. */
  lemma {:induction false} FieldsOfUntouched(d: map<string, string>, items: seq<FieldItem>, key: string)
    requires forall j :: 0 <= j < |items| ==> !Provides(items[j], key)
    ensures key in FieldsOf(d, items) <==> key in d
    ensures key in d ==> FieldsOf(d, items)[key] == d[key]
  {
    if items != [] {
      var init := items[..|items| - 1];
      assert !Provides(items[|items| - 1], key);
      FieldsOfUntouched(d, init, key);
    }
  }

  /** Every key written by the loop is a normalised label: no spaces, no
      upper-case ASCII letters. */
  lemma FieldsOfKeysNormalised(items: seq<FieldItem>, key: string)
    requires key in FieldsOf(map[], items)
    ensures forall c :: c in key ==> c != ' ' && !('A' <= c <= 'Z')
  {
    FieldsOfKeys(map[], items, key);
    var i :| 0 <= i < |items| && Provides(items[i], key);
  }
}
