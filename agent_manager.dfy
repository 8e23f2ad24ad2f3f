/** The server's session-to-agent cache (backend/agent/manager.py). The cache is one object
    whose map the operations update in place; a cached agent's model is swapped in place. */
module AgentManager {

  /** What `create_litellm_model(model_id)` builds, known here only by its model id. */
  datatype Model = LiteLlmModel(modelId: string)

  /** An agent: the model it talks to, reassignable, and the session whose files store its
      history. The prompt and the tool list are the same for every agent and are not modelled. */
  class Agent {
    var model: Model
    const sessionId: string

    constructor(model: Model, sessionId: string)
      ensures this.model == model && this.sessionId == sessionId
    {
      this.model := model;
      this.sessionId := sessionId;
    }
  }

  /** `_agent_cache`: session id to the agent and the id of the model it was given. */
  class AgentCache {
    var cache: map<string, (Agent, string)>

    function Agents(): set<Agent>
      reads this
    {
      set s | s in cache :: cache[s].0
    }

    /** Every cached agent belongs to its own session, talks to the model the cache records for
        it, and no two sessions share an agent. */
    predicate Valid()
      reads this, Agents()
    {
      (forall s :: s in cache ==> cache[s].0.sessionId == s && cache[s].0.model == LiteLlmModel(cache[s].1))
      && (forall s, t :: s in cache && t in cache && s != t ==> cache[s].0 != cache[t].0)
    }

    constructor()
      ensures cache == map[] && Valid()
    {
      cache := map[];
    }

    /** `get_or_create_agent`: the cached agent, with its model swapped when the requested one
        differs, or a new agent for a session not yet cached. */
    method GetOrCreateAgent(sessionId: string, modelId: string) returns (agent: Agent)
      requires Valid()
      modifies this, Agents()
      ensures Valid()
      ensures cache == old(cache)[sessionId := (agent, modelId)]
      ensures agent.sessionId == sessionId && agent.model == LiteLlmModel(modelId)
      ensures sessionId in old(cache) ==> agent == old(cache)[sessionId].0
      ensures sessionId in old(cache) && old(cache)[sessionId].1 == modelId ==> cache == old(cache)
      ensures sessionId !in old(cache) ==> fresh(agent)
      ensures forall a :: a in old(Agents()) && a != agent ==> unchanged(a)
    {
      if sessionId in cache {
        var (cachedAgent, cachedModelId) := cache[sessionId];
        if cachedModelId != modelId {
          cachedAgent.model := LiteLlmModel(modelId);
          cache := cache[sessionId := (cachedAgent, modelId)];
        }
        return cachedAgent;
      }
      var model := LiteLlmModel(modelId);
      agent := new Agent(model, sessionId);
      cache := cache[sessionId := (agent, modelId)];
    }

    /** `evict_agent`: the session's entry goes, if there is one; the others stay. */
    method EvictAgent(sessionId: string)
      requires Valid()
      modifies this
      ensures Valid()
      ensures cache == old(cache) - {sessionId}
      ensures sessionId !in old(cache) ==> cache == old(cache)
    {
      if sessionId in cache {
        cache := cache - {sessionId};
      }
    }
  }
}
