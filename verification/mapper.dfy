/** The generic `DataMapper`: a pair of conversions between a domain entity
    and its persistence model, and their element-wise bulk versions. */
module Mappers {

  datatype DataMapper<!E, !M> = DataMapper(modelToEntity: M -> E, entityToModel: E -> M)
  {
    /** `models_to_entities`: one entity per model, in order. */
    function ModelsToEntities(models: seq<M>): (r: seq<E>)
      ensures |r| == |models|
      ensures forall i :: 0 <= i < |models| ==> r[i] == modelToEntity(models[i])
    {
      if |models| == 0 then []
      else [modelToEntity(models[0])] + ModelsToEntities(models[1..])
    }

    /** `entities_to_models`: one model per entity, in order. */
    function EntitiesToModels(entities: seq<E>): (r: seq<M>)
      ensures |r| == |entities|
      ensures forall i :: 0 <= i < |entities| ==> r[i] == entityToModel(entities[i])
    {
      if |entities| == 0 then []
      else [entityToModel(entities[0])] + EntitiesToModels(entities[1..])
    }
  }

  /** Bulk mapping works piece by piece: it distributes over concatenation,
      so the order of the input is the order of the output. */
  lemma {:induction false} ModelsToEntitiesConcat<E, M>(m: DataMapper<E, M>, a: seq<M>, b: seq<M>)
    ensures m.ModelsToEntities(a + b) == m.ModelsToEntities(a) + m.ModelsToEntities(b)
    decreases |a|
  {
    if |a| == 0 {
      assert a + b == b;
    } else {
      assert (a + b)[1..] == a[1..] + b;
      ModelsToEntitiesConcat(m, a[1..], b);
    }
  }

  lemma {:induction false} EntitiesToModelsConcat<E, M>(m: DataMapper<E, M>, a: seq<E>, b: seq<E>)
    ensures m.EntitiesToModels(a + b) == m.EntitiesToModels(a) + m.EntitiesToModels(b)
    decreases |a|
  {
    if |a| == 0 {
      assert a + b == b;
    } else {
      assert (a + b)[1..] == a[1..] + b;
      EntitiesToModelsConcat(m, a[1..], b);
    }
  }

  /** When the single conversions are inverse on some models, the bulk
      conversions are inverse on any sequence of those models. */
  lemma BulkRoundTrip<E, M>(m: DataMapper<E, M>, models: seq<M>)
    requires forall i :: 0 <= i < |models| ==>
      m.entityToModel(m.modelToEntity(models[i])) == models[i]
    ensures m.EntitiesToModels(m.ModelsToEntities(models)) == models
  {
  }
}
