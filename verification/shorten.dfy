/** The short-code selection of `ShortenHandler` (handler/handler.go):
    generate an identifier and encode it; only when the Bloom filter says
    "maybe" ask the store; only when the store confirms, generate and
    encode once more and take that code without checking it. The HTTP
    request handling and the timed hand-off to the task channel are not
    modelled. */
module Shorten {
  import Base62
  import Snowflake
  import Bloom
  import Store

  /** The chosen code, the generator after the call and how many
      identifiers were generated for it. */
  datatype Selection = Selection(code: string, gen: Snowflake.Generator, generated: nat)

  /** The filter says "maybe" and the store confirms the code exists. */
  predicate Collides(filter: Bloom.Filter, hash: Bloom.Hash, urls: Store.UrlStore, code: string)
    requires Bloom.Valid(filter)
  {
    Bloom.MightContain(filter, hash, code) && Store.Get(urls, code).found
  }

  /** The generator's clock for the second generation is only read when
      the first code collides. */
  predicate CanSelect(g: Snowflake.Generator, first: Snowflake.Tick, second: Snowflake.Tick,
                      filter: Bloom.Filter, hash: Bloom.Hash, urls: Store.UrlStore)
  {
    && Snowflake.Valid(g) && Snowflake.CanIssue(g, first) && Bloom.Valid(filter)
    && var a := Snowflake.Generate(g, first);
       Collides(filter, hash, urls, Base62.ToBase62(a.id)) ==> Snowflake.CanIssue(a.gen, second)
  }

  /** Lines 48-57. At most two identifiers are generated; the second one
      exactly when the first code collides, and its code is then taken as
      it is. */
  function SelectCode(g: Snowflake.Generator, first: Snowflake.Tick, second: Snowflake.Tick,
                      filter: Bloom.Filter, hash: Bloom.Hash, urls: Store.UrlStore): (r: Selection)
    requires CanSelect(g, first, second, filter, hash, urls)
    ensures Snowflake.Valid(r.gen) && r.gen.workerId == g.workerId
    ensures 1 <= r.generated <= 2
    ensures var a := Snowflake.Generate(g, first);
      var code := Base62.ToBase62(a.id);
      && (r.generated == 2 <==> Collides(filter, hash, urls, code))
      && (r.generated == 1 ==> r.code == code && r.gen == a.gen)
      && (r.generated == 2 ==>
            var b := Snowflake.Generate(a.gen, second);
            r.code == Base62.ToBase62(b.id) && r.gen == b.gen)
  {
    var a := Snowflake.Generate(g, first);
    var code := Base62.ToBase62(a.id);
    if Bloom.MightContain(filter, hash, code) && Store.Get(urls, code).found then
      var b := Snowflake.Generate(a.gen, second);
      Selection(Base62.ToBase62(b.id), b.gen, 2)
    else
      Selection(code, a.gen, 1)
  }

  /** On a filter miss the first code is returned unchanged and the store
      plays no part: any two stores give the same selection. */
  lemma MissSkipsStore(g: Snowflake.Generator, first: Snowflake.Tick, second: Snowflake.Tick,
                       filter: Bloom.Filter, hash: Bloom.Hash, urls: Store.UrlStore, urls': Store.UrlStore)
    requires CanSelect(g, first, second, filter, hash, urls)
    requires !Bloom.MightContain(filter, hash, Base62.ToBase62(Snowflake.Generate(g, first).id))
    ensures CanSelect(g, first, second, filter, hash, urls')
    ensures SelectCode(g, first, second, filter, hash, urls) == SelectCode(g, first, second, filter, hash, urls')
    ensures SelectCode(g, first, second, filter, hash, urls).code == Base62.ToBase62(Snowflake.Generate(g, first).id)
  {
  }

  /** A filter false positive (the store does not have the code) also keeps
      the first code. */
  lemma FalsePositiveKeepsCode(g: Snowflake.Generator, first: Snowflake.Tick, second: Snowflake.Tick,
                               filter: Bloom.Filter, hash: Bloom.Hash, urls: Store.UrlStore)
    requires CanSelect(g, first, second, filter, hash, urls)
    requires Base62.ToBase62(Snowflake.Generate(g, first).id) !in urls.entries
    ensures var r := SelectCode(g, first, second, filter, hash, urls);
      r.code == Base62.ToBase62(Snowflake.Generate(g, first).id) && r.generated == 1
  {
  }

  /** With a clock that does not go back, a replacement code always differs
      from the code it replaces: the second identifier is larger and the
      encoding is injective. */
  lemma ReplacementDiffers(g: Snowflake.Generator, first: Snowflake.Tick, second: Snowflake.Tick,
                           filter: Bloom.Filter, hash: Bloom.Hash, urls: Store.UrlStore)
    requires CanSelect(g, first, second, filter, hash, urls)
    requires g.lastTime >= 0 && Snowflake.Elapsed(first.now) >= g.lastTime
    requires Snowflake.Elapsed(second.now) >= Snowflake.Generate(g, first).gen.lastTime
    ensures var r := SelectCode(g, first, second, filter, hash, urls);
      r.generated == 2 ==> r.code != Base62.ToBase62(Snowflake.Generate(g, first).id)
  {
    var a := Snowflake.Generate(g, first);
    var code := Base62.ToBase62(a.id);
    if Collides(filter, hash, urls, code) {
      var b := Snowflake.Generate(a.gen, second);
      Snowflake.GenerateIncreases(a.gen, second);
      assert a.gen.lastTime >= 0;
      assert a.id >= 0;
      Base62.Injective(a.id, b.id);
    }
  }

  /** The second code is not checked: with a saturated filter and a store
      that already holds both candidate codes, the selection returns a code
      that is itself a confirmed collision. */
  lemma SecondCodeUnchecked()
    ensures var g := Snowflake.Generator(1, 0, 100);
      var first := Snowflake.Tick(Snowflake.Epoch + 200, []);
      var second := Snowflake.Tick(Snowflake.Epoch + 201, []);
      var filter := Bloom.Filter([true], 1);
      var hash: Bloom.Hash := (key, round) => 0;
      var code1 := Base62.ToBase62(Snowflake.Generate(g, first).id);
      var code2 := Base62.ToBase62(Snowflake.Generate(Snowflake.Generate(g, first).gen, second).id);
      var urls := Store.Store(Store.Store(Store.NewUrlStore(), code1, "http://a"), code2, "http://b");
      && CanSelect(g, first, second, filter, hash, urls)
      && SelectCode(g, first, second, filter, hash, urls).generated == 2
      && Collides(filter, hash, urls, SelectCode(g, first, second, filter, hash, urls).code)
  {
  }
}
